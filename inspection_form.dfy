/** The state handlers of the inspection form. Each React updater
    `prev => next` is a value transformer on the form record: the record
    spreads are functions, and the handlers that copy the months record and
    rewrite it slot by slot in a loop are methods returning the new record.
    The captured signature is an input of the signing handlers. */
module InspectionForm {
  import opened Inspection
  import opened CivilDate
  import opened DateUtils
  import opened MonthControls

  /** The component state that the handlers touch. */
  datatype FormState = FormState(formData: InspectionFormData, currentSignature: string)

  /** Only slot `month` of the record may differ, and every slot is present. */
  ghost predicate OnlySlotChanged(prev: map<Month, MonthInspection>, next: map<Month, MonthInspection>, month: Month)
  {
    Complete(prev) && Complete(next) && forall m :: m != month ==> next[m] == prev[m]
  }

  /** No slot has both OK and DEF checked. */
  ghost predicate StatusExclusive(months: map<Month, MonthInspection>)
  {
    forall m :: m in months ==> !(months[m].ok && months[m].def)
  }

  /** handleToggleOk: flip OK and clear DEF in one slot. */
  function ToggleOk(prev: InspectionFormData, month: Month): (next: InspectionFormData)
    requires Complete(prev.months)
    ensures next.vehicle == prev.vehicle && OnlySlotChanged(prev.months, next.months, month)
    ensures next.months[month].ok == !prev.months[month].ok && !next.months[month].def
    ensures next.months[month].date == prev.months[month].date
    ensures next.months[month].mileage == prev.months[month].mileage
    ensures next.months[month].signature == prev.months[month].signature
  {
    var mi := prev.months[month];
    prev.(months := prev.months[month := mi.(ok := !mi.ok, def := false)])
  }

  /** handleToggleDef: flip DEF and clear OK in one slot. */
  function ToggleDef(prev: InspectionFormData, month: Month): (next: InspectionFormData)
    requires Complete(prev.months)
    ensures next.vehicle == prev.vehicle && OnlySlotChanged(prev.months, next.months, month)
    ensures next.months[month].def == !prev.months[month].def && !next.months[month].ok
    ensures next.months[month].date == prev.months[month].date
    ensures next.months[month].mileage == prev.months[month].mileage
    ensures next.months[month].signature == prev.months[month].signature
  {
    var mi := prev.months[month];
    prev.(months := prev.months[month := mi.(def := !mi.def, ok := false)])
  }

  /** A toggle keeps the record-wide exclusivity of OK and DEF. */
  lemma {:induction false} TogglesKeepStatusExclusive(prev: InspectionFormData, month: Month)
    requires Complete(prev.months) && StatusExclusive(prev.months)
    ensures StatusExclusive(ToggleOk(prev, month).months)
    ensures StatusExclusive(ToggleDef(prev, month).months)
  {
    var a := ToggleOk(prev, month);
    var b := ToggleDef(prev, month);
    forall m | m in a.months ensures !(a.months[m].ok && a.months[m].def) {
      if m != month {
        assert a.months[m] == prev.months[m];
      }
    }
    forall m | m in b.months ensures !(b.months[m].ok && b.months[m].def) {
      if m != month {
        assert b.months[m] == prev.months[m];
      }
    }
  }

  /** Toggling OK twice restores a slot whose DEF was clear. */
  lemma ToggleOkTwice(prev: InspectionFormData, month: Month)
    requires Complete(prev.months) && !prev.months[month].def
    ensures ToggleOk(ToggleOk(prev, month), month) == prev
  {
    var mi := prev.months[month];
    var once := mi.(ok := !mi.ok, def := false);
    var back := once.(ok := !once.ok, def := false);
    assert back == mi;
    assert prev.months[month := once][month := back] == prev.months;
  }

  /** Toggling DEF twice restores a slot whose OK was clear. */
  lemma ToggleDefTwice(prev: InspectionFormData, month: Month)
    requires Complete(prev.months) && !prev.months[month].ok
    ensures ToggleDef(ToggleDef(prev, month), month) == prev
  {
    var mi := prev.months[month];
    var once := mi.(def := !mi.def, ok := false);
    var back := once.(def := !once.def, ok := false);
    assert back == mi;
    assert prev.months[month := once][month := back] == prev.months;
  }

  /** The record after Set All: every slot with the given status, all else kept. */
  function WithStatus(months: map<Month, MonthInspection>, ok: bool, def: bool): map<Month, MonthInspection>
  {
    map m | m in months :: months[m].(ok := ok, def := def)
  }

  /** The loop shared by handleSetAllOk and handleSetAllDef: copy the
      record and set every slot's status in MONTHS order. */
  method SetAllStatus(prev: InspectionFormData, ok: bool, def: bool) returns (next: InspectionFormData)
    requires Complete(prev.months)
    ensures next == prev.(months := WithStatus(prev.months, ok, def))
  {
    var newMonths := prev.months;
    ghost var target := WithStatus(prev.months, ok, def);
    SpliceStart(target, prev.months);
    for i := 0 to |MONTHS|
      invariant Spliced(newMonths, target, prev.months, i)
    {
      var month := MONTHS[i];
      SpliceStep(newMonths, target, prev.months, i);
      newMonths := newMonths[month := newMonths[month].(ok := ok, def := def)];
    }
    SpliceDone(newMonths, target, prev.months);
    next := prev.(months := newMonths);
  }

  /** handleSetAllOk. */
  method SetAllOk(prev: InspectionFormData) returns (next: InspectionFormData)
    requires Complete(prev.months)
    ensures next == prev.(months := WithStatus(prev.months, true, false))
  {
    next := SetAllStatus(prev, true, false);
  }

  /** handleSetAllDef. */
  method SetAllDef(prev: InspectionFormData) returns (next: InspectionFormData)
    requires Complete(prev.months)
    ensures next == prev.(months := WithStatus(prev.months, false, true))
  {
    next := SetAllStatus(prev, false, true);
  }

  /** Set All gives every slot exactly the requested status and keeps each
      slot's date, mileage and signature; with OK or DEF set, every slot
      becomes signable and the status stays exclusive. */
  lemma SetAllEffect(months: map<Month, MonthInspection>, ok: bool, def: bool)
    requires Complete(months)
    ensures Complete(WithStatus(months, ok, def))
    ensures forall m :: WithStatus(months, ok, def)[m].ok == ok && WithStatus(months, ok, def)[m].def == def
    ensures forall m :: WithStatus(months, ok, def)[m].(ok := months[m].ok, def := months[m].def) == months[m]
    ensures ok != def ==> StatusExclusive(WithStatus(months, ok, def))
    ensures ok || def ==> SignableMonths(WithStatus(months, ok, def)) == MONTHS
  {
    var r := WithStatus(months, ok, def);
    if ok || def {
      MonthsIndexed();
      SignableMonthsExact(r);
      FilterAll(MONTHS, m => m in r && IsSignable(r[m]));
    }
  }

  /** A filter that keeps everything is the identity. */
  lemma {:induction false} FilterAll<T(!new)>(s: seq<T>, p: T -> bool)
    requires forall x :: x in s ==> p(x)
    ensures Filter(s, p) == s
  {
    if s != [] {
      assert s == s[..|s| - 1] + [s[|s| - 1]];
      FilterAll(s[..|s| - 1], p);
    }
  }

  /** Set All is idempotent, and Set All OK after Set All DEF (or the other
      way round) is the same as the last one alone. */
  lemma SetAllLastWins(months: map<Month, MonthInspection>, ok1: bool, def1: bool, ok2: bool, def2: bool)
    ensures WithStatus(WithStatus(months, ok1, def1), ok2, def2) == WithStatus(months, ok2, def2)
  {
  }

  /** The record after a January date change: each slot's date replaced by
      the calculated one, all else kept. */
  function WithDates(months: map<Month, MonthInspection>, dates: map<Month, string>): map<Month, MonthInspection>
  {
    map m | m in months && m in dates :: months[m].(date := dates[m])
  }

  /** handleDateChange: a JAN change recomputes all twelve dates from it;
      any other slot takes the entered date alone. */
  method DateChange(prev: InspectionFormData, month: Month, date: string) returns (next: InspectionFormData)
    requires Complete(prev.months)
    ensures month == JAN ==> next == prev.(months := WithDates(prev.months, InspectionSchedule(date)))
    ensures month != JAN ==> next == prev.(months := prev.months[month := prev.months[month].(date := date)])
  {
    if month == JAN {
      var calculatedDates := CalculateInspectionDates(date);
      var newMonths := prev.months;
      ghost var target := WithDates(prev.months, calculatedDates);
      SpliceStart(target, prev.months);
      for i := 0 to |MONTHS|
        invariant Spliced(newMonths, target, prev.months, i)
      {
        var m := MONTHS[i];
        SpliceStep(newMonths, target, prev.months, i);
        newMonths := newMonths[m := newMonths[m].(date := calculatedDates[m])];
      }
      SpliceDone(newMonths, target, prev.months);
      next := prev.(months := newMonths);
    } else {
      next := prev.(months := prev.months[month := prev.months[month].(date := date)]);
    }
  }

  /** A JAN date change touches only dates: an empty or unparseable date
      clears all twelve, a valid one keeps the entered text in JAN and puts
      in every later slot a non-empty date of the 45-day sequence. */
  lemma JanuaryDateChangeEffect(months: map<Month, MonthInspection>, date: string)
    requires Complete(months)
    ensures Complete(WithDates(months, InspectionSchedule(date)))
    ensures forall m :: WithDates(months, InspectionSchedule(date))[m].(date := months[m].date) == months[m]
    ensures date == "" || ParseIso(date).None? ==>
              forall m :: WithDates(months, InspectionSchedule(date))[m].date == ""
    ensures ParseIso(date).Some? ==>
              && WithDates(months, InspectionSchedule(date))[JAN].date == date
              && forall m :: WithDates(months, InspectionSchedule(date))[m].date != ""
  {
    if date == "" || ParseIso(date).None? {
      ScheduleOfInvalid(date);
    } else {
      MonthsIndexed();
      forall m ensures InspectionSchedule(date)[m] != "" {
        ScheduleOfValid(date, MonthIndex(m));
      }
      ScheduleOfValid(date, 0);
    }
  }

  /** handleMileageChange: one slot's mileage replaced. */
  function MileageChange(prev: InspectionFormData, month: Month, mileage: string): (next: InspectionFormData)
    requires Complete(prev.months)
    ensures next.vehicle == prev.vehicle && OnlySlotChanged(prev.months, next.months, month)
    ensures next.months[month] == prev.months[month].(mileage := mileage)
  {
    prev.(months := prev.months[month := prev.months[month].(mileage := mileage)])
  }

  /** handleSignMonth: without a current signature nothing changes;
      otherwise the slot takes it, replacing any earlier one. */
  function SignMonth(prev: InspectionFormData, month: Month, currentSignature: string): (next: InspectionFormData)
    requires Complete(prev.months)
    ensures currentSignature == "" ==> next == prev
    ensures currentSignature != "" ==>
              && next.vehicle == prev.vehicle && OnlySlotChanged(prev.months, next.months, month)
              && next.months[month] == prev.months[month].(signature := currentSignature)
  {
    if currentSignature == "" then prev
    else prev.(months := prev.months[month := prev.months[month].(signature := currentSignature)])
  }

  /** handleUnsignMonth: one slot's signature cleared. */
  function UnsignMonth(prev: InspectionFormData, month: Month): (next: InspectionFormData)
    requires Complete(prev.months)
    ensures next.vehicle == prev.vehicle && OnlySlotChanged(prev.months, next.months, month)
    ensures next.months[month] == prev.months[month].(signature := "")
  {
    prev.(months := prev.months[month := prev.months[month].(signature := "")])
  }

  /** Unsigning after signing an unsigned slot restores the record. */
  lemma UnsignUndoesSign(prev: InspectionFormData, month: Month, currentSignature: string)
    requires Complete(prev.months) && prev.months[month].signature == ""
    ensures UnsignMonth(SignMonth(prev, month, currentSignature), month) == prev
  {
    var after := UnsignMonth(SignMonth(prev, month, currentSignature), month);
    assert after.months[month] == prev.months[month];
    assert after.months == prev.months;
  }

  /** One slot as Sign All leaves it. */
  function SignEntry(mi: MonthInspection, currentSignature: string): (r: MonthInspection)
    requires currentSignature != ""
    ensures r != mi <==> NeedsSignature(mi)
    ensures NeedsSignature(mi) ==> r.signature == currentSignature
    ensures r.(signature := mi.signature) == mi
    ensures !NeedsSignature(r)
  {
    if NeedsSignature(mi) then mi.(signature := currentSignature) else mi
  }

  /** The record after Sign All. */
  function SignAllMonths(months: map<Month, MonthInspection>, currentSignature: string): map<Month, MonthInspection>
    requires currentSignature != ""
  {
    map m | m in months :: SignEntry(months[m], currentSignature)
  }

  /** handleSignAll: without a current signature nothing changes and nothing
      is counted; otherwise each slot that needs a signature, in MONTHS
      order, takes the current one and is counted. */
  method SignAll(prev: InspectionFormData, currentSignature: string) returns (next: InspectionFormData, signedCount: nat)
    requires Complete(prev.months)
    ensures currentSignature == "" ==> next == prev && signedCount == 0
    ensures currentSignature != "" ==> next == prev.(months := SignAllMonths(prev.months, currentSignature))
    ensures currentSignature != "" ==> signedCount == |UnsignedSignableMonths(prev.months)|
  {
    if currentSignature == "" {
      return prev, 0;
    }
    signedCount := 0;
    var newMonths := prev.months;
    ghost var target := SignAllMonths(prev.months, currentSignature);
    ghost var needs := NeedsSigning(prev.months);
    SpliceStart(target, prev.months);
    for i := 0 to |MONTHS|
      invariant Spliced(newMonths, target, prev.months, i)
      invariant signedCount == CountWhere(MONTHS[..i], needs)
    {
      var month := MONTHS[i];
      CountWhereStep(MONTHS, i, needs);
      if (newMonths[month].ok || newMonths[month].def) && newMonths[month].signature == "" {
        SpliceStep(newMonths, target, prev.months, i);
        newMonths := newMonths[month := newMonths[month].(signature := currentSignature)];
        signedCount := signedCount + 1;
      } else {
        SpliceSkip(newMonths, target, prev.months, i);
      }
    }
    SpliceDone(newMonths, target, prev.months);
    assert MONTHS[..|MONTHS|] == MONTHS;
    CountIsButtonCount(prev.months);
    next := prev.(months := newMonths);
  }

  /** How many elements of s satisfy p. */
  function CountWhere<T>(s: seq<T>, p: T -> bool): nat
  {
    if s == [] then 0
    else CountWhere(s[..|s| - 1], p) + (if p(s[|s| - 1]) then 1 else 0)
  }

  /** Counting one more element of s adds one when it satisfies p. */
  lemma CountWhereStep<T>(s: seq<T>, i: nat, p: T -> bool)
    requires i < |s|
    ensures CountWhere(s[..i + 1], p) == CountWhere(s[..i], p) + (if p(s[i]) then 1 else 0)
  {
    assert s[..i + 1][..i] == s[..i];
  }

  /** Counting is the length of filtering. */
  lemma {:induction false} CountWhereIsFilterLength<T(!new)>(s: seq<T>, p: T -> bool)
    ensures CountWhere(s, p) == |Filter(s, p)|
  {
    if s != [] {
      CountWhereIsFilterLength(s[..|s| - 1], p);
    }
  }

  /** The number of slots that need a signature is the count shown on the
      Sign All button. */
  lemma CountIsButtonCount(months: map<Month, MonthInspection>)
    requires Complete(months)
    ensures CountWhere(MONTHS, NeedsSigning(months)) == |UnsignedSignableMonths(months)|
  {
    CountWhereIsFilterLength(MONTHS, NeedsSigning(months));
    UnsignedSignableMonthsExact(months);
  }

  /** Sign All leaves no slot that needs a signature, so afterwards its
      button is disabled. */
  lemma SignAllEffect(months: map<Month, MonthInspection>, currentSignature: string)
    requires Complete(months) && currentSignature != ""
    ensures Complete(SignAllMonths(months, currentSignature))
    ensures UnsignedSignableMonths(SignAllMonths(months, currentSignature)) == []
    ensures SignAllDisabled(SignAllMonths(months, currentSignature), currentSignature)
  {
    var r := SignAllMonths(months, currentSignature);
    UnsignedSignableMonthsExact(r);
    forall m ensures m !in UnsignedSignableMonths(r) {
      assert !NeedsSignature(SignEntry(months[m], currentSignature));
    }
    HeadIsMember(UnsignedSignableMonths(r));
  }

  /** A non-empty sequence has a member. */
  lemma HeadIsMember<T>(s: seq<T>)
    ensures s == [] || s[0] in s
  {
  }

  /** Applying Sign All twice is the same as applying it once. */
  lemma SignAllIdempotent(months: map<Month, MonthInspection>, currentSignature: string)
    requires currentSignature != ""
    ensures SignAllMonths(SignAllMonths(months, currentSignature), currentSignature)
            == SignAllMonths(months, currentSignature)
  {
  }

  /** handleReset: after the confirmation, the empty form and no captured
      signature; without it, nothing changes. The confirmation answer is an
      input. */
  method Reset(prev: FormState, confirmed: bool) returns (next: FormState)
    ensures confirmed ==> IsEmptyFormData(next.formData) && next.currentSignature == ""
    ensures !confirmed ==> next == prev
  {
    if confirmed {
      var data := CreateEmptyFormData();
      next := FormState(data, "");
    } else {
      next := prev;
    }
  }
}
