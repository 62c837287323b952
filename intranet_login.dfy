/** The intranet login screen's view model: it checks the two fields in
    order, then brackets the login request with the loading indicator and
    reports the outcome. What it puts out on its three outputs (loading,
    success, error) and the request it issues are recorded, in order, as one
    event log. */
module IntranetLogin {
  import opened HaramTypes

  datatype LoginRequest = LoginRequest(intranetID: string, intranetPWD: string)

  datatype Event =
    | Loading(isLoading: bool)
    | Requested(request: LoginRequest)
    | LoginSucceeded
    | ErrorShown(error: HaramError)

  /** Some request was issued in `ev`. */
  predicate Issued(ev: seq<Event>)
  {
    exists k :: 0 <= k < |ev| && ev[k].Requested?
  }

  /** The loading indicator after `ev`, starting from `initial`. */
  function LoadingAfter(initial: bool, ev: seq<Event>): bool
    decreases ev
  {
    if ev == [] then initial
    else LoadingAfter(if ev[0].Loading? then ev[0].isLoading else initial, ev[1..])
  }

  /** What one login attempt puts out, the repository's reply given. */
  function LoginEvents(intranetID: string, intranetPassword: string, reply: Result<(), HaramError>): (ev: seq<Event>)
    // an empty ID is reported first and alone, even when the password is empty too
    ensures intranetID == "" ==> ev == [ErrorShown(NoUserID)]
    ensures intranetID != "" && intranetPassword == "" ==> ev == [ErrorShown(NoPWD)]
    // a request goes out only with both fields filled, and carries them as typed
    ensures Issued(ev) <==> intranetID != "" && intranetPassword != ""
    ensures forall k :: 0 <= k < |ev| && ev[k].Requested? ==>
              ev[k].request == LoginRequest(intranetID, intranetPassword)
              && k > 0 && ev[k - 1] == Loading(true)
    // an accepted attempt is: loading on, one request, one outcome, loading off
    ensures intranetID != "" && intranetPassword != "" ==>
              |ev| == 4 && ev[0] == Loading(true) && ev[3] == Loading(false)
    // the indicator is only touched around a request
    ensures !Issued(ev) ==> forall k :: 0 <= k < |ev| ==> !ev[k].Loading?
    // success and error exclude each other
    ensures LoginSucceeded in ev <==> Issued(ev) && reply.Success?
    ensures reply.Failure? && Issued(ev) ==>
              ErrorShown(reply.error) in ev
              && forall k :: 0 <= k < |ev| && ev[k].ErrorShown? ==> ev[k].error == reply.error
    ensures reply.Success? ==> forall k :: 0 <= k < |ev| && ev[k].ErrorShown? ==> !Issued(ev)
  {
    if intranetID == "" then [ErrorShown(NoUserID)]
    else if intranetPassword == "" then [ErrorShown(NoPWD)]
    else
      var outcome := match reply
        case Success(_) => LoginSucceeded
        case Failure(error) => ErrorShown(error);
      var ev := [Loading(true), Requested(LoginRequest(intranetID, intranetPassword)), outcome, Loading(false)];
      assert ev[1].Requested?;
      ev
  }

  /** A rejected attempt leaves the indicator alone; an attempt that issued
      a request always ends with the indicator off. */
  lemma LoadingEndsOff(initial: bool, intranetID: string, intranetPassword: string, reply: Result<(), HaramError>)
    ensures LoadingAfter(initial, LoginEvents(intranetID, intranetPassword, reply))
         == (if intranetID != "" && intranetPassword != "" then false else initial)
  {
    var ev := LoginEvents(intranetID, intranetPassword, reply);
    if intranetID != "" && intranetPassword != "" {
      var outcome := ev[2];
      assert !outcome.Loading?;
      assert ev[1..] == [ev[1], outcome, Loading(false)];
      assert ev[1..][1..] == [outcome, Loading(false)];
      assert ev[1..][1..][1..] == [Loading(false)];
      assert LoadingAfter(true, [Loading(false)]) == LoadingAfter(false, []);
      assert LoadingAfter(true, [outcome, Loading(false)]) == LoadingAfter(true, [Loading(false)]);
      assert LoadingAfter(true, ev[1..]) == LoadingAfter(true, [outcome, Loading(false)]);
    } else {
      assert ev[1..] == [];
    }
  }

  class IntranetLoginViewModel {
    var isLoading: bool
    var events: seq<Event>

    constructor ()
      ensures !isLoading && events == []
    {
      isLoading := false;
      events := [];
    }

    /** One login attempt, with the repository's reply as input. */
    method WhichIntranetInfo(intranetID: string, intranetPassword: string, reply: Result<(), HaramError>)
      modifies this
      ensures events == old(events) + LoginEvents(intranetID, intranetPassword, reply)
      ensures isLoading == LoadingAfter(old(isLoading), LoginEvents(intranetID, intranetPassword, reply))
    {
      LoadingEndsOff(isLoading, intranetID, intranetPassword, reply);
      if intranetID == "" {
        events := events + [ErrorShown(NoUserID)];
        return;
      } else if intranetPassword == "" {
        events := events + [ErrorShown(NoPWD)];
        return;
      }

      isLoading := true;
      events := events + [Loading(true)];

      events := events + [Requested(LoginRequest(intranetID, intranetPassword))];
      match reply {
        case Success(_) =>
          events := events + [LoginSucceeded];
        case Failure(error) =>
          events := events + [ErrorShown(error)];
      }
      isLoading := false;
      events := events + [Loading(false)];
    }
  }
}
