/** The Rothem endpoints: each case of the router names its HTTP method, URL
    path, parameter encoding and header set. */
module RothemRouter {
  import opened HaramTypes

  datatype Endpoint =
    | InquireAllRoomInfo
    | InquireAllRothemNotice
    | InquireRothemHomeInfo(userID: string)
    | InquireRothemRoomInfo(roomSeq: int)

  // The router's result types. Only `Get`, `Plain` and `WithAccessToken`
  // occur in this router; the other cases stand for the rest of the app's
  // `Router` types, so that "every endpoint uses GET" is a real choice.
  datatype HttpMethod = Get | Post | Put | Delete
  datatype ParameterType = Plain | Query | Body
  datatype HeaderType = Default | WithAccessToken

  const RoomsPath: string := "/rothem/admin/rooms"
  const NoticesPath: string := "/rothem/v1/notices"
  const HomesPrefix: string := "/rothem/v1/homes/"
  const RoomPrefix: string := "/rothem/v1/rooms/"

  /** Every Rothem endpoint is read with GET. */
  function Method(e: Endpoint): (m: HttpMethod)
    ensures m == Get
  {
    match e
    case InquireAllRoomInfo => Get
    case InquireAllRothemNotice => Get
    case InquireRothemHomeInfo(_) => Get
    case InquireRothemRoomInfo(_) => Get
  }

  /** Every Rothem endpoint sends no parameters. */
  function Parameters(e: Endpoint): (p: ParameterType)
    ensures p == Plain
  {
    match e
    case InquireAllRoomInfo => Plain
    case InquireAllRothemNotice => Plain
    case InquireRothemHomeInfo(_) => Plain
    case InquireRothemRoomInfo(_) => Plain
  }

  /** Every Rothem endpoint is called with the user's access token. */
  function Headers(e: Endpoint): (h: HeaderType)
    ensures h == WithAccessToken
  {
    match e
    case InquireAllRoomInfo => WithAccessToken
    case InquireAllRothemNotice => WithAccessToken
    case InquireRothemHomeInfo(_) => WithAccessToken
    case InquireRothemRoomInfo(_) => WithAccessToken
  }

  /** The URL path. String interpolation of an `Int` is its decimal text. */
  function Path(e: Endpoint): (p: string)
    ensures |p| >= 8 && p[..8] == "/rothem/"
  {
    match e
    case InquireAllRoomInfo => RoomsPath
    case InquireAllRothemNotice => NoticesPath
    case InquireRothemHomeInfo(userID) => HomesPrefix + userID
    case InquireRothemRoomInfo(roomSeq) => RoomPrefix + IntToString(roomSeq)
  }

  // ---------------------------------------------------------------------
  // Decimal text of an integer, as `"\(n)"` prints it: no leading zeros,
  // a leading '-' for negative numbers.

  function DigitChar(d: nat): (c: char)
    requires d < 10
    ensures '0' <= c <= '9'
  {
    "0123456789"[d]
  }

  function DigitValue(c: char): nat
  {
    if '0' <= c <= '9' then (c - '0') as nat else 0
  }

  /** The decimal digits of `n`, most significant first. */
  function NatToString(n: nat): (s: string)
    ensures |s| >= 1 && Digits(s)
    ensures |s| > 1 ==> s[0] != '0'
  {
    if n < 10 then [DigitChar(n)]
    else NatToString(n / 10) + [DigitChar(n % 10)]
  }

  function IntToString(n: int): (s: string)
    ensures n >= 0 ==> |s| >= 1 && Digits(s)
    ensures n < 0 ==> |s| >= 2 && s[0] == '-' && Digits(s[1..])
  {
    if n < 0 then "-" + NatToString(-n) else NatToString(n)
  }

  /** The number a run of decimal digits denotes. */
  function DigitsValue(s: string): nat
  {
    if s == [] then 0 else DigitsValue(s[..|s| - 1]) * 10 + DigitValue(s[|s| - 1])
  }

  /** Reads back the text `IntToString` produces: an optional '-' and a
      non-empty run of digits. */
  function ParseInt(s: string): (r: Option<int>)
    ensures r.Some? ==> |s| >= 1
  {
    if |s| >= 2 && s[0] == '-' && Digits(s[1..]) then Some(-(DigitsValue(s[1..]) as int))
    else if |s| >= 1 && Digits(s) then Some(DigitsValue(s))
    else None
  }

  lemma {:induction false} DigitsValueOfNatToString(n: nat)
    ensures DigitsValue(NatToString(n)) == n
  {
    var s := NatToString(n);
    if n < 10 {
      assert s[..|s| - 1] == [];
    } else {
      assert s[..|s| - 1] == NatToString(n / 10);
      DigitsValueOfNatToString(n / 10);
    }
  }

  lemma {:induction false} ParseNatText(n: nat)
    ensures ParseInt(NatToString(n)) == Some(n)
  {
    var s := NatToString(n);
    assert s[0] != '-' by { assert IsDigit(s[0]); }
    DigitsValueOfNatToString(n);
  }

  lemma {:induction false} ParseNegativeText(n: int)
    requires n < 0
    ensures ParseInt("-" + NatToString(-n)) == Some(n)
  {
    var t := NatToString(-n);
    var s := "-" + t;
    assert s[0] == '-' && s[1..] == t;
    DigitsValueOfNatToString(-n);
  }

  /** Parsing the printed decimal text gives the number back. */
  lemma {:induction false} IntToStringRoundTrip(n: int)
    ensures ParseInt(IntToString(n)) == Some(n)
  {
    if n < 0 {
      ParseNegativeText(n);
    } else {
      ParseNatText(n);
    }
  }

  /** Distinct integers print as distinct decimal texts. */
  lemma IntToStringInjective(n: int, m: int)
    requires IntToString(n) == IntToString(m)
    ensures n == m
  {
    IntToStringRoundTrip(n);
    IntToStringRoundTrip(m);
  }

  // ---------------------------------------------------------------------
  // Recovering the endpoint from its path.

  predicate HasPrefix(p: string, prefix: string)
  {
    |prefix| <= |p| && p[..|prefix|] == prefix
  }

  /** Which endpoint a path belongs to; `None` for a path no endpoint
      produces. */
  function ParsePath(p: string): (r: Option<Endpoint>)
  {
    if p == RoomsPath then Some(InquireAllRoomInfo)
    else if p == NoticesPath then Some(InquireAllRothemNotice)
    else if HasPrefix(p, HomesPrefix) then Some(InquireRothemHomeInfo(p[|HomesPrefix|..]))
    else if HasPrefix(p, RoomPrefix) then
      match ParseInt(p[|RoomPrefix|..])
      case Some(n) => Some(InquireRothemRoomInfo(n))
      case None => None
    else None
  }

  /** The path determines the endpoint: stripping "/rothem/v1/homes/" gives
      back the user ID, and the room path reads back as the room number. */
  lemma PathRoundTrip(e: Endpoint)
    ensures ParsePath(Path(e)) == Some(e)
  {
    var p := Path(e);
    match e
    case InquireAllRoomInfo =>
    case InquireAllRothemNotice =>
    case InquireRothemHomeInfo(userID) =>
      assert p[..|HomesPrefix|] == HomesPrefix;
      assert p[|HomesPrefix|..] == userID;
      assert p != RoomsPath by { assert p[8] != RoomsPath[8]; }
      assert p != NoticesPath by { assert p[11] != NoticesPath[11]; }
    case InquireRothemRoomInfo(roomSeq) =>
      assert p[..|RoomPrefix|] == RoomPrefix;
      assert p[|RoomPrefix|..] == IntToString(roomSeq);
      assert p != RoomsPath by { assert p[8] != RoomsPath[8]; }
      assert p != NoticesPath by { assert p[11] != NoticesPath[11]; }
      assert !HasPrefix(p, HomesPrefix) by { assert p[11] != HomesPrefix[11]; }
      IntToStringRoundTrip(roomSeq);
  }

  /** Distinct endpoints have distinct paths; in particular two room
      numbers never share a path. */
  lemma PathInjective(a: Endpoint, b: Endpoint)
    requires Path(a) == Path(b)
    ensures a == b
  {
    PathRoundTrip(a);
    PathRoundTrip(b);
  }
}
