/** Worked sessions of the slot selector and the submit check, stated on
    the model's functions. */
module ReservationScenarios {
  import opened HaramTypes
  import opened ReservationModel
  import opened PhoneNumber

  /** Slots 1 and 2 free, 3 reserved: 1 then 2 are accepted (adjacent);
      a third pick is refused with the count error and changes nothing. */
  lemma {:induction false} MaxCountSession()
    ensures var t0 := FreshTable([TimeResponse(1, false), TimeResponse(2, false), TimeResponse(3, true)]);
            var s1 := SelectStep(t0, 1);
            var s2 := SelectStep(s1.table, 2);
            var s3 := SelectStep(s2.table, 3);
            s1.error == None && SelectedSeqs(s1.table) == [1]
            && s2.error == None && SelectedSeqs(s2.table) == [1, 2]
            && s3.error == Some(MaxReservationCount) && s3.table == s2.table
  {
    var t0 := FreshTable([TimeResponse(1, false), TimeResponse(2, false), TimeResponse(3, true)]);
    assert t0 == [TimeSlot(1, false, false), TimeSlot(2, false, false), TimeSlot(3, true, false)];
    assert SelectedSeqs(t0) == [] by {
      assert t0[1..][1..][1..] == [];
    }
    var t1 := [TimeSlot(1, false, true), TimeSlot(2, false, false), TimeSlot(3, true, false)];
    assert SelectStep(t0, 1) == Step(t1, None) by { assert HasSlot(t0, 1); }
    assert SelectedSeqs(t1) == [1] by {
      assert t1[1..][1..][1..] == [];
    }
    var t2 := [TimeSlot(1, false, true), TimeSlot(2, false, true), TimeSlot(3, true, false)];
    assert FirstIndex(t1, 2) == 1 by { assert t1[1..][0].timeSeq == 2; }
    assert SelectStep(t1, 2) == Step(t2, None) by {
      assert HasSlot(t1, 2) by { assert t1[1].timeSeq == 2; }
      assert Adjacent(1, 2);
    }
    assert SelectedSeqs(t2) == [1, 2] by {
      assert t2[1..][1..][1..] == [];
    }
  }

  /** Slots 1 and 5: after 1, picking 5 is refused as not consecutive and
      the selection stays {1}. */
  lemma {:induction false} NonConsecutiveSession()
    ensures var t0 := FreshTable([TimeResponse(1, false), TimeResponse(5, false)]);
            var s1 := SelectStep(t0, 1);
            var s2 := SelectStep(s1.table, 5);
            s1.error == None && SelectedSeqs(s1.table) == [1]
            && s2.error == Some(NonConsecutiveReservations) && s2.table == s1.table
  {
    var t0 := FreshTable([TimeResponse(1, false), TimeResponse(5, false)]);
    assert t0 == [TimeSlot(1, false, false), TimeSlot(5, false, false)];
    assert SelectedSeqs(t0) == [] by {
      assert t0[1..][1..] == [];
    }
    var t1 := [TimeSlot(1, false, true), TimeSlot(5, false, false)];
    assert SelectStep(t0, 1) == Step(t1, None) by { assert HasSlot(t0, 1); }
    assert SelectedSeqs(t1) == [1] by {
      assert t1[1..][1..] == [];
    }
    assert FirstIndex(t1, 5) == 1 by { assert t1[1..][0].timeSeq == 5; }
    assert HasSlot(t1, 5) by { assert t1[1].timeSeq == 5; }
    assert !Adjacent(1, 5);
  }

  /** A valid phone number, a name and a picked time: the button stays off
      while one policy is unchecked and turns on once it is checked. */
  lemma {:induction false} SubmitSession()
    ensures var ps := [Policy(1, "a", true), Policy(2, "b", false)];
            var t := [TimeSlot(1, false, true)];
            !CanSubmit("010-1234-5678", ps, t, "Kim")
            && CanSubmit("010-1234-5678", CheckPolicies(ps, 2, true), t, "Kim")
  {
    var ps := [Policy(1, "a", true), Policy(2, "b", false)];
    var t := [TimeSlot(1, false, true)];
    assert IsValidPhoneNumber("010-1234-5678") by {
      assert Shape("010-1234-5678", true, true);
    }
    assert SelectedSeqs(t) == [1] by { assert t[1..] == []; }
    assert Unchecked(ps) != [] by {
      assert Unchecked(ps[1..]) == [ps[1]] by { assert ps[1..][1..] == []; }
    }
    var checked := CheckPolicies(ps, 2, true);
    assert checked == [Policy(1, "a", true), Policy(2, "b", true)];
    assert Unchecked(checked) == [] by {
      assert checked[1..][1..] == [];
    }
  }
}
