/** The phone-number check that gates a study-room reservation: the pattern
    `^\d{3}-?\d{4}-?\d{4}$`, matched against the whole string. `\d` is read
    as an ASCII digit. */
module PhoneNumber {
  import opened HaramTypes

  /** A piece of a regular expression of the shape the phone pattern has:
      a run of exactly `n` digits (`\d{n}`) or an optional dash (`-?`). */
  datatype Piece = DigitRun(n: nat) | OptionalDash

  const PhonePattern: seq<Piece> :=
    [DigitRun(3), OptionalDash, DigitRun(4), OptionalDash, DigitRun(4)]

  /** Whole-string match of a sequence of pieces, trying both choices for
      every optional dash (the regex engine's backtracking). */
  predicate Matches(pattern: seq<Piece>, s: string)
    decreases |pattern|
  {
    if pattern == [] then s == []
    else match pattern[0]
      case DigitRun(n) =>
        n <= |s| && Digits(s[..n]) && Matches(pattern[1..], s[n..])
      case OptionalDash =>
        (|s| > 0 && s[0] == '-' && Matches(pattern[1..], s[1..])) || Matches(pattern[1..], s)
  }

  /** `s` has the phone shape with the first and second dash present or not. */
  predicate Shape(s: string, dash1: bool, dash2: bool)
  {
    var a := if dash1 then 1 else 0;
    var b := if dash2 then 1 else 0;
    |s| == 11 + a + b
    && Digits(s[..3])
    && (dash1 ==> s[3] == '-')
    && Digits(s[3 + a..7 + a])
    && (dash2 ==> s[7 + a] == '-')
    && Digits(s[7 + a + b..])
  }

  /** The view model's `isValidPhoneNumber`: three digits, an optional dash,
      four digits, an optional dash, four digits, and nothing else. */
  function IsValidPhoneNumber(s: string): (ok: bool)
    ensures ok ==> 11 <= |s| <= 13
    ensures ok ==> (|s| == 11 <==> Digits(s))
  {
    Shape(s, false, false) || Shape(s, true, false) || Shape(s, false, true) || Shape(s, true, true)
  }

  lemma {:induction false} MatchesFourDigits(t: string)
    ensures Matches([DigitRun(4)], t) <==> |t| == 4 && Digits(t)
  {
    var p: seq<Piece> := [DigitRun(4)];
    assert p[1..] == [];
    if |t| >= 4 {
      assert Matches(p, t) == (Digits(t[..4]) && Matches([], t[4..]));
      if |t| == 4 { assert t[..4] == t; }
    }
  }

  lemma {:induction false} MatchesDashFour(t: string)
    ensures Matches([OptionalDash, DigitRun(4)], t)
        <==> (|t| == 5 && t[0] == '-' && Digits(t[1..])) || (|t| == 4 && Digits(t))
  {
    var p: seq<Piece> := [OptionalDash, DigitRun(4)];
    assert p[1..] == [DigitRun(4)];
    MatchesFourDigits(t);
    if |t| > 0 { MatchesFourDigits(t[1..]); }
  }

  lemma {:induction false} MatchesFourDashFour(t: string)
    ensures Matches([DigitRun(4), OptionalDash, DigitRun(4)], t)
        <==> |t| >= 4 && Digits(t[..4])
             && ((|t| == 9 && t[4] == '-' && Digits(t[5..])) || (|t| == 8 && Digits(t[4..])))
  {
    var p: seq<Piece> := [DigitRun(4), OptionalDash, DigitRun(4)];
    assert p[1..] == [OptionalDash, DigitRun(4)];
    if |t| >= 4 {
      MatchesDashFour(t[4..]);
      if |t| >= 5 { assert t[4..][1..] == t[5..]; }
    }
  }

  /** The written-out check agrees with matching the regular expression:
      a string passes exactly when the pattern matches all of it. */
  lemma {:induction false} PhoneCheckMatchesPattern(s: string)
    ensures IsValidPhoneNumber(s) <==> Matches(PhonePattern, s)
  {
    var p1: seq<Piece> := [OptionalDash, DigitRun(4), OptionalDash, DigitRun(4)];
    var p2: seq<Piece> := [DigitRun(4), OptionalDash, DigitRun(4)];
    assert PhonePattern[1..] == p1;
    assert p1[1..] == p2;
    if |s| >= 3 {
      var u := s[3..];
      MatchesFourDashFour(u);
      if |u| >= 4 { assert u[..4] == s[3..7] && u[4..] == s[7..]; }
      if |u| >= 5 { assert u[5..] == s[8..]; }
      if |u| > 0 {
        var v := u[1..];
        MatchesFourDashFour(v);
        assert v == s[4..];
        if |v| >= 4 { assert v[..4] == s[4..8] && v[4..] == s[8..]; }
        if |v| >= 5 { assert v[5..] == s[9..]; }
      }
    }
  }
}
