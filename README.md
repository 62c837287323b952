# Haram: study-room reservation, Rothem router and intranet login

This project is a Dafny model of three pieces of the Haram iOS app.

- **The study-room reservation screen** (`StudyReservationViewModel`):
  - a time table of slots, each with a `timeSeq`, a reserved flag and a selected flag;
  - the policies the user must agree to, each with a `policySeq` and a checked flag;
  - the chosen calendar day.

  The class `StudyReservation.StudyReservationViewModel` keeps this state in fields. Its methods are the screen's commands:
  - choose a day;
  - select or deselect a time;
  - tick a policy;
  - type a name or a phone number;
  - load the calendar;
  - tap the reserve button.

  Each method is specified by a pure transition function in module `ReservationModel` (`ChooseDayStep`, `SelectStep`, `DeselectStep`, `CheckPolicies`, `BuildRequest`, …). The rules are proved about those functions:
  - at most two slots are selected;
  - two selected slots are adjacent;
  - a reserved slot is never selected;
  - the table always belongs to the day on display.

  The reserve button's predicate combines four conditions: the phone pattern `^\d{3}-?\d{4}-?\d{4}$` (module `PhoneNumber`), every policy checked, at least one time picked and a non-empty name.
- **The Rothem router** (`RothemRouter`): each endpoint's HTTP method, URL path, parameter encoding and header set. The paths are proved to determine the endpoint: a parser reads every path back.
- **The intranet login** (`IntranetLoginViewModel.whichIntranetInfo`):
  - the two fields are checked in order;
  - the login request is bracketed by the loading indicator;
  - the outcome is reported.

  What the view model puts out is recorded as one ordered event log.

The view models' Rx outputs are modelled as logs:
- errors shown: `errors`;
- loading values: `loading`;
- completed reservations: `successes`.

Repository replies are parameters of the methods that wait for them. `ReservationScenarios` and `StaleDayScenario` hold worked sessions.

## Model

| member | source | states |
|---|---|---|
| RothemRouter.Method | Haram/Haram/Repository/Router/RothemRouter.swift:19-24 | every endpoint is requested with GET |
| RothemRouter.Path | Haram/Haram/Repository/Router/RothemRouter.swift:26-37 | every path lies under "/rothem/" |
| RothemRouter.Parameters | Haram/Haram/Repository/Router/RothemRouter.swift:39-44 | every endpoint sends plain (no) parameters |
| RothemRouter.Headers | Haram/Haram/Repository/Router/RothemRouter.swift:46-51 | every endpoint is sent with the access-token headers |
| RothemRouter.NatToString | Haram/Haram/Repository/Router/RothemRouter.swift:35 | the interpolated room number is a non-empty run of decimal digits without a leading zero |
| RothemRouter.IntToString | Haram/Haram/Repository/Router/RothemRouter.swift:35 | a non-negative room number prints as a non-empty run of digits, a negative one as '-' followed by its digits |
| RothemRouter.IntToStringRoundTrip | Haram/Haram/Repository/Router/RothemRouter.swift:35 | reading the decimal text of a room number gives the number back, negative numbers included |
| RothemRouter.IntToStringInjective | Haram/Haram/Repository/Router/RothemRouter.swift:35 | distinct room numbers print as distinct texts |
| RothemRouter.PathRoundTrip | Haram/Haram/Repository/Router/RothemRouter.swift:26-37 | parsing an endpoint's path gives back the endpoint: the two fixed paths, the user ID after "/rothem/v1/homes/", the room number after "/rothem/v1/rooms/" |
| RothemRouter.PathInjective | Haram/Haram/Repository/Router/RothemRouter.swift:26-37 | distinct endpoints have distinct paths |
| PhoneNumber.IsValidPhoneNumber | Haram/Haram/Presentation/CoreTab/Home/View/Shortcut/ViewModel/Rothem/StudyReservationViewModel.swift:165-171 | an accepted number has 11 to 13 characters, and it has 11 exactly when it is all digits |
| PhoneNumber.PhoneCheckMatchesPattern | Haram/Haram/Presentation/CoreTab/Home/View/Shortcut/ViewModel/Rothem/StudyReservationViewModel.swift:167-170 | the check accepts a string exactly when the regular expression `^\d{3}-?\d{4}-?\d{4}$`, matched with backtracking, matches the whole string |
| ReservationModel.FreshTable | Haram/Haram/Presentation/CoreTab/Home/View/Shortcut/ViewModel/Rothem/StudyReservationViewModel.swift:78 | the new table has one slot per time of the day, in order, with the same `timeSeq` and reserved flag, and none selected |
| ReservationModel.SelectedSeqs | Haram/Haram/Presentation/CoreTab/Home/View/Shortcut/ViewModel/Rothem/StudyReservationViewModel.swift:140 | the selected times are no more than the slots |
| ReservationModel.SelectedEmptyIff | Haram/Haram/Presentation/CoreTab/Home/View/Shortcut/ViewModel/Rothem/StudyReservationViewModel.swift:265-269 | no time is listed exactly when no slot is selected |
| ReservationModel.FirstIndex | Haram/Haram/Presentation/CoreTab/Home/View/Shortcut/ViewModel/Rothem/StudyReservationViewModel.swift:105-106 | the index found holds the slot with that `timeSeq`, and no earlier slot has it |
| ReservationModel.SelectStep | Haram/Haram/Presentation/CoreTab/Home/View/Shortcut/ViewModel/Rothem/StudyReservationViewModel.swift:86-118 | two selected: the count error and an unchanged table; a reserved slot: unchanged, no error; one selected and the new time not ±1 of it: the non-consecutive error, unchanged; a select that passes all three checks sets exactly the first matching slot and emits nothing, and the count grows by one |
| ReservationModel.DeselectStep | Haram/Haram/Presentation/CoreTab/Home/View/Shortcut/ViewModel/Rothem/StudyReservationViewModel.swift:121-127 | only the first slot with that `timeSeq` is cleared, keeping its time and reserved flag, and every other slot is unchanged; the count drops by one exactly when that slot was selected |
| ReservationModel.SelectedGrows | Haram/Haram/Presentation/CoreTab/Home/View/Shortcut/ViewModel/Rothem/StudyReservationViewModel.swift:116 | selecting an unselected slot adds exactly one time to the selected times |
| ReservationModel.SelectedShrinks | Haram/Haram/Presentation/CoreTab/Home/View/Shortcut/ViewModel/Rothem/StudyReservationViewModel.swift:125 | clearing a selected slot removes exactly one time from the selected times |
| ReservationModel.DoubleWriteIdempotent | Haram/Haram/Presentation/CoreTab/Home/View/Shortcut/ViewModel/Rothem/StudyReservationViewModel.swift:104-117 | setting the slot's flag a second time changes nothing |
| ReservationModel.FirstIndexAfterSet | Haram/Haram/Presentation/CoreTab/Home/View/Shortcut/ViewModel/Rothem/StudyReservationViewModel.swift:115-116 | the second lookup after the first write finds the same slot |
| ReservationModel.SelectKeepsSelectionOk | Haram/Haram/Presentation/CoreTab/Home/View/Shortcut/ViewModel/Rothem/StudyReservationViewModel.swift:90-117 | a select keeps the table well formed: at most two selected, a pair adjacent, no reserved slot selected |
| ReservationModel.AcceptedKeepsUnreserved | Haram/Haram/Presentation/CoreTab/Home/View/Shortcut/ViewModel/Rothem/StudyReservationViewModel.swift:96-99 | an accepted select never marks a reserved slot |
| ReservationModel.AcceptedPairAdjacent | Haram/Haram/Presentation/CoreTab/Home/View/Shortcut/ViewModel/Rothem/StudyReservationViewModel.swift:101-113 | when a select makes a pair, the two selected times differ by one |
| ReservationModel.DeselectKeepsSelectionOk | Haram/Haram/Presentation/CoreTab/Home/View/Shortcut/ViewModel/Rothem/StudyReservationViewModel.swift:121-127 | a deselect keeps the table well formed |
| ReservationModel.FreshTableSelectionOk | Haram/Haram/Presentation/CoreTab/Home/View/Shortcut/ViewModel/Rothem/StudyReservationViewModel.swift:78 | a freshly shown table is well formed |
| ReservationModel.SelectedAreOffered | Haram/Haram/Presentation/CoreTab/Home/View/Shortcut/ViewModel/Rothem/StudyReservationViewModel.swift:140 | every selected time is an unreserved time of the day the table was built from |
| ReservationModel.FindDay | Haram/Haram/Presentation/CoreTab/Home/View/Shortcut/ViewModel/Rothem/StudyReservationViewModel.swift:72 | the day found is the first one with that `calendarSeq` |
| ReservationModel.FirstAvailable | Haram/Haram/Presentation/CoreTab/Home/View/Shortcut/ViewModel/Rothem/StudyReservationViewModel.swift:192-194 | no result exactly when no day is available; otherwise the earliest available day |
| ReservationModel.ChooseDayStep | Haram/Haram/Presentation/CoreTab/Home/View/Shortcut/ViewModel/Rothem/StudyReservationViewModel.swift:69-79 | a repeated day changes nothing, so the selection survives; a new day that the calendar lists as unavailable or without times is remembered but leaves the shown day and the table; an available day replaces them with that day and its times, none selected |
| ReservationModel.InsertDescSorted | Haram/Haram/Presentation/CoreTab/Home/View/Shortcut/ViewModel/Rothem/StudyReservationViewModel.swift:190 | inserting into a list sorted by descending `policySeq` keeps it sorted, with the new policy or the old head in front |
| ReservationModel.InsertDescPermutes | Haram/Haram/Presentation/CoreTab/Home/View/Shortcut/ViewModel/Rothem/StudyReservationViewModel.swift:190 | inserting adds exactly that policy to the list's multiset |
| ReservationModel.SortDesc | Haram/Haram/Presentation/CoreTab/Home/View/Shortcut/ViewModel/Rothem/StudyReservationViewModel.swift:190 | the policies come out in descending `policySeq` order, as a permutation of the input |
| ReservationModel.SortDescStrict | Haram/Haram/Presentation/CoreTab/Home/View/Shortcut/ViewModel/Rothem/StudyReservationViewModel.swift:190 | with distinct `policySeq`s the order is strictly descending |
| ReservationModel.PolicyViews | Haram/Haram/Presentation/CoreTab/Home/View/Shortcut/ViewModel/Rothem/StudyReservationViewModel.swift:190 | one unchecked check box per policy, in order, with the same `policySeq` and text |
| ReservationModel.CheckPolicies | Haram/Haram/Presentation/CoreTab/Home/View/Shortcut/ViewModel/Rothem/StudyReservationViewModel.swift:207-219 | same length and order; the flag is set on the policies with that `policySeq` and no other entry changes |
| ReservationModel.CheckPoliciesIdempotent | Haram/Haram/Presentation/CoreTab/Home/View/Shortcut/ViewModel/Rothem/StudyReservationViewModel.swift:207-219 | ticking the same box twice is the same as once |
| ReservationModel.Unchecked | Haram/Haram/Presentation/CoreTab/Home/View/Shortcut/ViewModel/Rothem/StudyReservationViewModel.swift:269 | every policy returned is unchecked and is one of the input's; no more policies than the input |
| ReservationModel.CanSubmit | Haram/Haram/Presentation/CoreTab/Home/View/Shortcut/ViewModel/Rothem/StudyReservationViewModel.swift:269 | a form that can be submitted has a phone number of 11 to 13 characters, a non-empty name and a non-empty table |
| ReservationModel.UncheckedEmptyIff | Haram/Haram/Presentation/CoreTab/Home/View/Shortcut/ViewModel/Rothem/StudyReservationViewModel.swift:269 | no unchecked policy remains exactly when every policy is checked |
| ReservationModel.CanSubmitIff | Haram/Haram/Presentation/CoreTab/Home/View/Shortcut/ViewModel/Rothem/StudyReservationViewModel.swift:261-270 | the button is on exactly when the phone matches the pattern, every policy is checked, some slot is selected and the name is non-empty |
| ReservationModel.AgreeAll | Haram/Haram/Presentation/CoreTab/Home/View/Shortcut/ViewModel/Rothem/StudyReservationViewModel.swift:139 | one agreement per policy, in order, each "Y" |
| ReservationModel.BuildRequest | Haram/Haram/Presentation/CoreTab/Home/View/Shortcut/ViewModel/Rothem/StudyReservationViewModel.swift:133-151 | a request exists exactly when a name, a phone number and a day are known; it carries them, every policy agreed and the selected times in table order |
| ReservationScenarios.MaxCountSession | Haram/Haram/Presentation/CoreTab/Home/View/Shortcut/ViewModel/Rothem/StudyReservationViewModel.swift:86-118 | slots 1, 2 free and 3 reserved: 1 then 2 are accepted; a third pick gives the count error and leaves the table |
| ReservationScenarios.NonConsecutiveSession | Haram/Haram/Presentation/CoreTab/Home/View/Shortcut/ViewModel/Rothem/StudyReservationViewModel.swift:101-112 | slots 1 and 5: after 1, picking 5 gives the non-consecutive error and the selection stays {1} |
| ReservationScenarios.SubmitSession | Haram/Haram/Presentation/CoreTab/Home/View/Shortcut/ViewModel/Rothem/StudyReservationViewModel.swift:261-270 | with "010-1234-5678", "Kim" and a picked time, the button is off while a policy is unchecked and on once it is ticked |
| StudyReservation.StudyReservationViewModel.constructor | Haram/Haram/Presentation/CoreTab/Home/View/Shortcut/ViewModel/Rothem/StudyReservationViewModel.swift:41-65 | the screen starts with no calendar, table, policies, day, name or number, and nothing emitted |
| StudyReservation.StudyReservationViewModel.ChooseDay | Haram/Haram/Presentation/CoreTab/Home/View/Shortcut/ViewModel/Rothem/StudyReservationViewModel.swift:68-81 | the new day, shown day and table are `ChooseDayStep` of the old ones, and the table stays well formed and belongs to the shown day |
| StudyReservation.StudyReservationViewModel.SelectTime | Haram/Haram/Presentation/CoreTab/Home/View/Shortcut/ViewModel/Rothem/StudyReservationViewModel.swift:86-119 | the working copy written back is `SelectStep`'s table, its error (if any) is appended to the error log, and the table stays well formed |
| StudyReservation.StudyReservationViewModel.DeselectTime | Haram/Haram/Presentation/CoreTab/Home/View/Shortcut/ViewModel/Rothem/StudyReservationViewModel.swift:121-128 | the table becomes `DeselectStep` of the old one and stays well formed |
| StudyReservation.StudyReservationViewModel.CheckCheckBox | Haram/Haram/Presentation/CoreTab/Home/View/Shortcut/ViewModel/Rothem/StudyReservationViewModel.swift:207-219 | the policies become `CheckPolicies` of the old ones |
| StudyReservation.StudyReservationViewModel.EnterName | Haram/Haram/Presentation/CoreTab/Home/View/Shortcut/ViewModel/Rothem/StudyReservationViewModel.swift:253-255 | the latest name typed is kept |
| StudyReservation.StudyReservationViewModel.EnterPhoneNumber | Haram/Haram/Presentation/CoreTab/Home/View/Shortcut/ViewModel/Rothem/StudyReservationViewModel.swift:257-259 | the latest phone number typed is kept |
| StudyReservation.StudyReservationViewModel.Load | Haram/Haram/Presentation/CoreTab/Home/View/Shortcut/ViewModel/Rothem/StudyReservationViewModel.swift:178-201 | a failure changes nothing but shows the error when it is a `HaramError`; a success stores the calendar and the policies sorted by descending `policySeq`, unchecked, emits loading true then false, and chooses the first available day if there is one |
| StudyReservation.StudyReservationViewModel.ButtonActivated | Haram/Haram/Presentation/CoreTab/Home/View/Shortcut/ViewModel/Rothem/StudyReservationViewModel.swift:261-273 | no value until a name and a number are typed; on exactly when the number is valid, the name non-empty, a time selected and every policy checked |
| StudyReservation.StudyReservationViewModel.PendingRequest | Haram/Haram/Presentation/CoreTab/Home/View/Shortcut/ViewModel/Rothem/StudyReservationViewModel.swift:133-151 | a request names the day the table shows, and every time it asks for is an unreserved time of that day |
| StudyReservation.StudyReservationViewModel.RequestAsWritten | Haram/Haram/Presentation/CoreTab/Home/View/Shortcut/ViewModel/Rothem/StudyReservationViewModel.swift:133-151 | a request names the last `calendarSeq` sent to the day input |
| StudyReservation.StudyReservationViewModel.TapReservation | Haram/Haram/Presentation/CoreTab/Home/View/Shortcut/ViewModel/Rothem/StudyReservationViewModel.swift:132-163 | the request sent is `PendingRequest`, which is the assembled request whenever the last day sent is the day on display; nothing happens without one; a success is counted; a failure shows its error when it is a `HaramError` |
| StaleDayScenario.Run | Haram/Haram/Presentation/CoreTab/Home/View/Shortcut/ViewModel/Rothem/StudyReservationViewModel.swift:133-151 | after picking time 10 on open day 1 and then tapping closed day 2, the as-written request names day 2 with time 10, the corrected one names day 1 |
| IntranetLogin.LoginEvents | Haram/Haram/Presentation/Auth/Intranet/ViewModel/IntranetLoginViewModel.swift:68-96 | an empty ID gives only `noUserID`, even with an empty password; an empty password then gives only `noPWD`; a request is issued exactly when both are filled, carries them as typed and follows loading-on; an accepted attempt puts out exactly four events, loading on first and loading off last, so one request and one outcome before the indicator goes off; success exactly when issued and the reply succeeds; a failure shows exactly that error |
| IntranetLogin.LoadingEndsOff | Haram/Haram/Presentation/Auth/Intranet/ViewModel/IntranetLoginViewModel.swift:78-93 | a rejected attempt leaves the indicator as it was; an issued one always ends with it off |
| IntranetLogin.IntranetLoginViewModel.constructor | Haram/Haram/Presentation/Auth/Intranet/ViewModel/IntranetLoginViewModel.swift:27-33 | the indicator starts off and nothing has been emitted |
| IntranetLogin.IntranetLoginViewModel.WhichIntranetInfo | Haram/Haram/Presentation/Auth/Intranet/ViewModel/IntranetLoginViewModel.swift:68-96 | the attempt appends exactly `LoginEvents` to the log, and the indicator ends as `LoadingAfter` of those events says |

## Left out

- TapReservation: sends the corrected request (`PendingRequest`, see Findings), which names the day on display. The view model as written (lines 138, 147) names the last `calendarSeq` sent (`RequestAsWritten`). The two differ when that day was refused, for example an unavailable day tapped after an available one, or an unavailable day sent when no day was available. In the latter case the source still sends a request and the model sends none.
- Rx semantics are collapsed to synchronous commands: `combineLatest`, `withLatestFrom`, `flatMapLatest`, schedulers, and the ordering of asynchronous replies. The model does not capture that an error reply (line 158) ends the reservation stream, so later taps send nothing. `TapReservation` instead handles every tap.
- Network calls (`checkTimeAvailableForRothemReservation`, `reserveStudyRoom`, `loginIntranet`) are replaced by their replies, passed as method parameters.
- Failures that are not a `HaramError` are one `Foreign` case.
- `distinctUntilChanged` on the loading stream and the button stream is not modelled. `loading` logs every value emitted.
- `BehaviorRelay` re-emission of an equal time table is not modelled.
- Force-unwraps that would crash become preconditions:
  - `ChooseDay` needs the day to be in the calendar, or to repeat the last one.
  - `SelectTime` needs the slot to be in the table, unless two are already selected.
  - `DeselectTime` needs the slot to be in the table.
- The displays that only mirror state are not modelled: the room information relay, the day-cell relay, and the non-empty filter on the policy output.
- The room response is not modelled either.
- SelectStep: `timeSeq` is an unbounded `int`, while Swift's `Int` is 64-bit and traps on overflow. The ±1 test at line 104 evaluates `$0 + 1` and `$0 - 1` on the selected slot's `timeSeq`. It crashes when that value is `Int.max`. It also crashes when the value is `Int.min` and the picked time is not `Int.min + 1`. The model answers those cases as ordinary adjacency checks: it refuses a time that is not ±1 and accepts one that is. The same holds for `StudyReservationViewModel.SelectTime`, which follows `SelectStep`.
- PhoneNumber.IsValidPhoneNumber reads `\d` as an ASCII digit; the ICU engine behind `NSPredicate` also accepts other Unicode decimal digits.
- ReservationModel.SortDesc: the Swift sort is not stable. The model fixes one order for equal `policySeq`s; only the descending order and the permutation are promised.
- The response and view-model types (`CalendarResponse`, `SelectedTimeCollectionViewCellModel`, `TermsOfUseCheckViewModel`, `ReserveStudyRoomRequest`) are not part of this model. The model assumes:
  - their initialisers copy the sequence numbers, text and reserved flag;
  - they start unselected and unchecked;
  - slot equality for `firstIndex(of:)` is field-wise.
- `RothemRouter`'s base URL and the rest of the `Router` protocol are not part of this model.
- The commented-out `tryRequestIntranetToken` is not modelled.

## Findings

| source | as written | input that shows it | evidently intended | confidence | as-written member | corrected member |
|---|---|---|---|---|---|---|
| Haram/Haram/Presentation/CoreTab/Home/View/Shortcut/ViewModel/Rothem/StudyReservationViewModel.swift:133-151 | the request takes the last `calendarSeq` sent to the day input, including a day that was refused (lines 75-76) and did not replace the table | load day 1 (available, time 10) and day 2 (unavailable); select 10; choose day 2; type a name and a phone number; tap: the request asks for time 10 on day 2, which offers no times | the request names the day whose times the table shows | medium, not executed | StudyReservation.StudyReservationViewModel.RequestAsWritten, StaleDayScenario.Run | StudyReservation.StudyReservationViewModel.PendingRequest |
