/** The values the month-controls panel derives from the months record and
    the current signature: the signable months, the months the Sign All
    button would sign (and its count), the Sign All enablement rule, each
    row's Sign/Unsign action and the month name shown in each row. */
module MonthControls {
  import opened Inspection

  /** `Array.prototype.filter`: the elements of s satisfying p, in order. */
  function Filter<T(==,!new)>(s: seq<T>, p: T -> bool): (r: seq<T>)
    ensures |r| <= |s|
    ensures forall x :: x in r <==> x in s && p(x)
  {
    if s == [] then []
    else Filter(s[..|s| - 1], p) + (if p(s[|s| - 1]) then [s[|s| - 1]] else [])
  }

  /** Filtering keeps the relative order of the kept elements: a sequence
      strictly increasing in `key` stays strictly increasing. */
  lemma {:induction false} FilterKeepsOrder<T(!new)>(s: seq<T>, p: T -> bool, key: T -> int)
    requires forall i, j :: 0 <= i < j < |s| ==> key(s[i]) < key(s[j])
    ensures forall i, j :: 0 <= i < j < |Filter(s, p)| ==> key(Filter(s, p)[i]) < key(Filter(s, p)[j])
  {
    if s != [] {
      var init := s[..|s| - 1];
      FilterKeepsOrder(init, p, key);
      var r := Filter(s, p);
      var ri := Filter(init, p);
      if p(s[|s| - 1]) {
        assert r == ri + [s[|s| - 1]];
        forall i | 0 <= i < |ri| ensures key(ri[i]) < key(s[|s| - 1]) {
          assert ri[i] in init;
          var k :| 0 <= k < |init| && init[k] == ri[i];
          assert s[k] == ri[i];
        }
      } else {
        assert r == ri;
      }
    }
  }

  /** Filtering twice is filtering once by both predicates. */
  lemma {:induction false} FilterTwice<T(!new)>(s: seq<T>, p: T -> bool, q: T -> bool, pq: T -> bool)
    requires forall x :: pq(x) == (p(x) && q(x))
    ensures Filter(Filter(s, p), q) == Filter(s, pq)
  {
    if s != [] {
      var init, last := s[..|s| - 1], s[|s| - 1];
      FilterTwice(init, p, q, pq);
      var fp := Filter(s, p);
      if p(last) {
        assert fp == Filter(init, p) + [last];
        assert fp[..|fp| - 1] == Filter(init, p);
      } else {
        assert fp == Filter(init, p);
      }
    }
  }

  /** A month with OK or DEF checked may be signed. */
  predicate IsSignable(mi: MonthInspection)
  {
    mi.ok || mi.def
  }

  /** A signable month that carries no signature yet. */
  predicate NeedsSignature(mi: MonthInspection)
  {
    IsSignable(mi) && mi.signature == ""
  }

  /** The slot test behind unsignedSignableMonths, as one predicate. */
  function NeedsSigning(months: map<Month, MonthInspection>): Month -> bool
  {
    m => m in months && NeedsSignature(months[m])
  }

  /** signableMonths: MONTHS filtered by OK or DEF. At most twelve months
      are listed: exactly the slots of the record with OK or DEF checked. */
  function SignableMonths(months: map<Month, MonthInspection>): (r: seq<Month>)
    ensures |r| <= |MONTHS|
    ensures forall m :: m in r <==> m in months && IsSignable(months[m])
  {
    MonthsIndexed();
    Filter(MONTHS, m => m in months && IsSignable(months[m]))
  }

  /** unsignedSignableMonths: the signable months filtered by an empty
      signature. A month is listed exactly when its slot needs a signature,
      and the list is no longer than the signable months. */
  function UnsignedSignableMonths(months: map<Month, MonthInspection>): (r: seq<Month>)
    ensures |r| <= |SignableMonths(months)|
    ensures forall m :: m in r <==> m in months && NeedsSignature(months[m])
  {
    Filter(SignableMonths(months), m => m in months && months[m].signature == "")
  }

  /** The signable months are exactly the slots with OK or DEF, in the order
      of MONTHS. */
  lemma SignableMonthsExact(months: map<Month, MonthInspection>)
    requires Complete(months)
    ensures forall m :: m in SignableMonths(months) <==> IsSignable(months[m])
    ensures forall i, j :: 0 <= i < j < |SignableMonths(months)| ==>
              MonthIndex(SignableMonths(months)[i]) < MonthIndex(SignableMonths(months)[j])
  {
    MonthsIndexed();
    FilterKeepsOrder(MONTHS, m => m in months && IsSignable(months[m]), m => MonthIndex(m));
  }

  /** The unsigned signable months are exactly the slots that need a
      signature, in the order of MONTHS: the two filters in a row are the
      single filter by NeedsSigning. */
  lemma UnsignedSignableMonthsExact(months: map<Month, MonthInspection>)
    requires Complete(months)
    ensures UnsignedSignableMonths(months) == Filter(MONTHS, NeedsSigning(months))
    ensures forall m :: m in UnsignedSignableMonths(months) <==> NeedsSignature(months[m])
  {
    MonthsIndexed();
    FilterTwice(MONTHS, m => m in months && IsSignable(months[m]),
                m => m in months && months[m].signature == "", NeedsSigning(months));
  }

  /** `canSign` for the row of slot m: a row can be signed exactly when there
      is a current signature and Sign All would sign that slot. */
  predicate CanSign(months: map<Month, MonthInspection>, m: Month, currentSignature: string)
    requires m in months
    ensures CanSign(months, m, currentSignature) <==>
              currentSignature != "" && m in UnsignedSignableMonths(months)
  {
    currentSignature != "" && (months[m].ok || months[m].def) && months[m].signature == ""
  }

  /** The `disabled` attribute of the Sign All button: the button is
      enabled exactly when there is a current signature and some slot of
      the record needs a signature. */
  predicate SignAllDisabled(months: map<Month, MonthInspection>, currentSignature: string)
    ensures !SignAllDisabled(months, currentSignature) <==>
              currentSignature != "" && exists m :: m in months && NeedsSignature(months[m])
  {
    var u := UnsignedSignableMonths(months);
    assert u != [] ==> u[0] in u;
    currentSignature == "" || |u| == 0
  }

  /** Sign All is enabled exactly when some row could be signed on its own. */
  lemma SignAllEnabledIffSomeRowCanSign(months: map<Month, MonthInspection>, currentSignature: string)
    ensures !SignAllDisabled(months, currentSignature) <==>
              exists m :: m in months && CanSign(months, m, currentSignature)
  {
    var u := UnsignedSignableMonths(months);
    if currentSignature != "" && |u| > 0 {
      assert u[0] in u;
      assert CanSign(months, u[0], currentSignature);
    }
  }

  /** What the action column of a row offers. */
  datatype RowAction = Unsign | Sign(enabled: bool)

  /** The action column of the row of slot m: Unsign for a signed row,
      otherwise a Sign button that is enabled exactly when Sign All would
      sign that slot and there is a current signature. */
  function RowActionFor(months: map<Month, MonthInspection>, m: Month, currentSignature: string): (r: RowAction)
    requires m in months
    ensures r.Unsign? <==> months[m].signature != ""
    ensures r.Sign? ==> (r.enabled <==> currentSignature != "" && IsSignable(months[m]))
    ensures r == Sign(true) <==> currentSignature != "" && m in UnsignedSignableMonths(months)
  {
    if months[m].signature != "" then Unsign else Sign(CanSign(months, m, currentSignature))
  }

  /** displayMonth: the full name of the month the row's date falls in, or the
      slot's own full name when the row has no date. How a date string is
      mapped to a month is given by the caller. The name shown is always one
      of the twelve full names, and it is the slot's own name exactly when
      the date is empty or falls in that month. */
  function DisplayMonth(mi: MonthInspection, slot: Month, monthOfDate: string -> Month): (r: string)
    ensures exists m :: r == FullName(m)
    ensures r == FullName(slot) <==> mi.date == "" || monthOfDate(mi.date) == slot
  {
    if mi.date != "" then
      var shown := monthOfDate(mi.date);
      if shown != slot then
        FullNamesDistinct(shown, slot);
        FullName(shown)
      else FullName(shown)
    else FullName(slot)
  }
}
