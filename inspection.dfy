/** The data model of the CHP 108A bus inspection form: the twelve month
    slots, the forty checklist items with their brake and CVC index tables,
    one month's inspection entry, the vehicle header and the empty form. */
module Inspection {

  /** The twelve fixed month slots. The slot is a label: the date stored in
      it need not fall in that calendar month. */
  datatype Month = JAN | FEB | MAR | APR | MAY | JUN | JUL | AUG | SEP | OCT | NOV | DEC

  /** The slots in calendar order; this order drives column order. */
  const MONTHS: seq<Month> := [JAN, FEB, MAR, APR, MAY, JUN, JUL, AUG, SEP, OCT, NOV, DEC]

  /** Position of a slot in MONTHS. */
  function MonthIndex(m: Month): (i: nat)
    ensures i < |MONTHS| && MONTHS[i] == m
  {
    match m
    case JAN => 0  case FEB => 1  case MAR => 2   case APR => 3
    case MAY => 4  case JUN => 5  case JUL => 6   case AUG => 7
    case SEP => 8  case OCT => 9  case NOV => 10  case DEC => 11
  }

  /** The slot's key as it appears in labels ("JAN INSPECTION"). */
  function Key(m: Month): string
  {
    match m
    case JAN => "JAN"  case FEB => "FEB"  case MAR => "MAR"  case APR => "APR"
    case MAY => "MAY"  case JUN => "JUN"  case JUL => "JUL"  case AUG => "AUG"
    case SEP => "SEP"  case OCT => "OCT"  case NOV => "NOV"  case DEC => "DEC"
  }

  /** MONTH_FULL_NAMES. Every slot's full name begins with its key: its
      first three letters, upper-cased, are the key. */
  function FullName(m: Month): (r: string)
    ensures |r| >= 3 && ToUpper(r[..3]) == Key(m)
  {
    var r := match m
      case JAN => "January"  case FEB => "February"  case MAR => "March"
      case APR => "April"    case MAY => "May"       case JUN => "June"
      case JUL => "July"     case AUG => "August"    case SEP => "September"
      case OCT => "October"  case NOV => "November"  case DEC => "December";
    assert ToUpper(r[..3]) == [UpperChar(r[0]), UpperChar(r[1]), UpperChar(r[2])];
    r
  }

  /** ASCII upper-casing, as `toUpperCase` does on these names. */
  function UpperChar(c: char): char
  {
    if 'a' <= c <= 'z' then (c as int - 'a' as int + 'A' as int) as char else c
  }

  function ToUpper(s: string): (r: string)
    ensures |r| == |s| && forall i :: 0 <= i < |s| ==> r[i] == UpperChar(s[i])
  {
    if s == [] then [] else [UpperChar(s[0])] + ToUpper(s[1..])
  }

  /** MonthIndex inverts indexing into MONTHS, so the slots listed are distinct. */
  lemma MonthsIndexed()
    ensures |MONTHS| == 12
    ensures forall i :: 0 <= i < |MONTHS| ==> MonthIndex(MONTHS[i]) == i
    ensures forall m: Month :: m in MONTHS
  {
    forall m: Month ensures m in MONTHS {
      assert MONTHS[MonthIndex(m)] == m;
    }
  }

  /** Distinct slots have distinct full names. */
  lemma FullNamesDistinct(m1: Month, m2: Month)
    requires m1 != m2
    ensures FullName(m1) != FullName(m2)
  {
  }

  /** One month's inspection entry (MonthInspection). */
  datatype MonthInspection = MonthInspection(
    ok: bool,
    def: bool,
    date: string,      // an ISO date string or empty
    mileage: string,
    signature: string  // a data URI of the signature image, or empty
  )

  datatype VehicleInfo = VehicleInfo(
    carrierName: string,
    unitNumber: string,
    year: string,
    make: string,
    licenseNumber: string,
    hasAirBrakes: bool
  )

  datatype InspectionFormData = InspectionFormData(
    vehicle: VehicleInfo,
    months: map<Month, MonthInspection>
  )

  /** A `Record<Month, T>`: a value for every one of the twelve slots. */
  ghost predicate Complete<T>(r: map<Month, T>)
  {
    forall m: Month :: m in r
  }

  /** The state of a loop that rewrites a record slot by slot in MONTHS
      order: the first i slots hold their target values and the rest still
      hold their original ones. */
  ghost predicate Spliced<T>(r: map<Month, T>, target: map<Month, T>, orig: map<Month, T>, i: nat)
  {
    && Complete(r) && Complete(target) && Complete(orig)
    && (forall j :: 0 <= j < i && j < |MONTHS| ==> r[MONTHS[j]] == target[MONTHS[j]])
    && (forall j :: i <= j < |MONTHS| ==> r[MONTHS[j]] == orig[MONTHS[j]])
  }

  lemma SpliceStart<T>(target: map<Month, T>, orig: map<Month, T>)
    requires Complete(target) && Complete(orig)
    ensures Spliced(orig, target, orig, 0)
  {
  }

  /** Writing the target value into slot i extends the rewritten prefix. */
  lemma SpliceStep<T>(r: map<Month, T>, target: map<Month, T>, orig: map<Month, T>, i: nat)
    requires i < |MONTHS| && Spliced(r, target, orig, i)
    ensures Spliced(r[MONTHS[i] := target[MONTHS[i]]], target, orig, i + 1)
  {
    MonthsIndexed();
    var next := r[MONTHS[i] := target[MONTHS[i]]];
    forall j | 0 <= j < |MONTHS| && j != i ensures next[MONTHS[j]] == r[MONTHS[j]] {
      assert MonthIndex(MONTHS[j]) != MonthIndex(MONTHS[i]);
    }
  }

  /** A slot whose target is its original value extends the prefix as is. */
  lemma SpliceSkip<T>(r: map<Month, T>, target: map<Month, T>, orig: map<Month, T>, i: nat)
    requires i < |MONTHS| && Spliced(r, target, orig, i) && target[MONTHS[i]] == orig[MONTHS[i]]
    ensures Spliced(r, target, orig, i + 1)
  {
  }

  /** Once every slot is rewritten the record is the target. */
  lemma SpliceDone<T>(r: map<Month, T>, target: map<Month, T>, orig: map<Month, T>)
    requires Spliced(r, target, orig, |MONTHS|)
    ensures r == target
  {
    MonthsIndexed();
    forall m ensures r[m] == target[m] {
      assert MONTHS[MonthIndex(m)] == m;
    }
  }

  const ITEM_COUNT: nat := 40

  /** The forty checklist descriptions, 0-indexed. */
  const INSPECTION_ITEMS: seq<string> := [
    "Fire extinguisher, first aid kit, and reflective warning devices",
    "Horn, defroster, gauges, odometer, and speedometer",
    "Driver seat, passenger seats, padding, interior, and floor condition",
    "Windshield wipers, windows, mirrors, and supports",
    "All interior and exterior lights, signals, reflectors",
    "Electrical wiring-condition and protection",
    "Batteries-water level, terminals, and cables",
    "Warning devices-air, oil, temperature, exit, and/or vacuum",
    "Heaters, defrosters, switches, and vents",
    "Doors, exterior, paint, and marking",
    "Radiator and water hoses-coolant level, condition, and/or leaks",
    "Belts-compressor, fan, water, and/or alternator",
    "Air hoses and tubing-leaks, condition, and/or protection",
    "Fuel system-tank, hoses, tubing, and/or pump-leaks",
    "Exhaust system, manifolds, piping, muffler-leaks and/or condition",
    "Engine-mounting, excessive grease and/or oil",
    "Clutch adjustment-free play",
    "Air filter, throttle linkage",
    "Starting and charging system",
    "Hydraulic brake system-adjustment, components, and/or condition",
    "Hydraulic master cylinder-level, leaks, and/or condition",
    "Hoses and tubing-condition, protection",
    "Air brake system-adjustment, compartments, and/or condition",
    "1 minute air or vacuum loss test",
    "Air compressor governor-cut in and cut out pressure (85-130)",
    "Primary air tank-drain and test function of check valve",
    "Other air tanks-drain and check for contamination",
    "Tires-tread depth, inflation, condition",
    "Wheels, lug nuts, and studs-cracks, looseness, and/or condition",
    "Parking brake-able to hold the vehicle",
    "Emergency stopping system-labeled, operative",
    "Brakes do not release after complete loss of service air",
    "Steering system-mounting, free lash and components",
    "Steering arms, drag links, and/or tie rod ends",
    "Suspension system-springs, shackles, u-bolts, and/or torque rods",
    "Frame and cross members-cracks and/or condition",
    "Drive shaft, universal joints, and/or guards",
    "Transmission and differential-mounting, leaks, and/or condition",
    "Wheel seals-leaks and/or condition",
    "Under carriage-clean and secure"
  ]

  /** 0-based items that only apply to vehicles with air brakes. */
  const AIR_BRAKE_ITEMS: seq<nat> := [22, 23, 24, 25, 26, 31]

  /** 0-based items that only apply to vehicles with hydraulic brakes. */
  const HYDRAULIC_BRAKE_ITEMS: seq<nat> := [19, 20]

  /** 1-based item numbers that meet the minimum requirements of 34505 CVC. */
  const CVC_REQUIRED_ITEMS: seq<nat> :=
    [1, 2, 3, 4, 5, 6, 7, 8, 9, 10, 11, 12, 13, 14, 15, 16, 17, 18, 19, 20, 21]

  /** The number printed for a 0-based item index. */
  function ItemNumber(index: nat): (n: nat)
    ensures n >= 1
  {
    index + 1
  }

  /** The item tables: forty items; the two brake subsets lie inside them,
      are disjoint and carry the item numbers 23-27, 32 and 20, 21; the CVC
      items are exactly the numbers 1 to 21. */
  lemma ItemTables()
    ensures |INSPECTION_ITEMS| == ITEM_COUNT
    ensures forall i :: i in AIR_BRAKE_ITEMS ==> i < ITEM_COUNT
    ensures forall i :: i in HYDRAULIC_BRAKE_ITEMS ==> i < ITEM_COUNT
    ensures forall i :: i in AIR_BRAKE_ITEMS ==> i !in HYDRAULIC_BRAKE_ITEMS
    ensures seq(|AIR_BRAKE_ITEMS|, k requires 0 <= k < |AIR_BRAKE_ITEMS| => ItemNumber(AIR_BRAKE_ITEMS[k]))
            == [23, 24, 25, 26, 27, 32]
    ensures seq(|HYDRAULIC_BRAKE_ITEMS|, k requires 0 <= k < |HYDRAULIC_BRAKE_ITEMS| => ItemNumber(HYDRAULIC_BRAKE_ITEMS[k]))
            == [20, 21]
    ensures forall n: nat :: n in CVC_REQUIRED_ITEMS <==> 1 <= n <= 21
  {
  }

  const BLANK_MONTH := MonthInspection(false, false, "", "", "")

  const DEFAULT_CARRIER_NAME := "California Charter Bus & Tours"

  const DEFAULT_VEHICLE := VehicleInfo(DEFAULT_CARRIER_NAME, "", "", "", "", false)

  /** What createEmptyFormData returns: the default vehicle and twelve blank months. */
  ghost predicate IsEmptyFormData(data: InspectionFormData)
  {
    && data.vehicle == DEFAULT_VEHICLE
    && Complete(data.months)
    && forall m :: data.months[m] == BLANK_MONTH
  }

  /** There is only one empty form. */
  lemma EmptyFormDataUnique(a: InspectionFormData, b: InspectionFormData)
    requires IsEmptyFormData(a) && IsEmptyFormData(b)
    ensures a == b
  {
    assert a.months.Keys == b.months.Keys by {
      forall m | m in a.months ensures m in b.months { }
    }
  }

  /** createEmptyFormData: fills the months record slot by slot. */
  method CreateEmptyFormData() returns (data: InspectionFormData)
    ensures IsEmptyFormData(data)
    ensures data.vehicle.carrierName == "California Charter Bus & Tours"
    ensures data.vehicle.unitNumber == "" && data.vehicle.year == "" && data.vehicle.make == ""
    ensures data.vehicle.licenseNumber == "" && !data.vehicle.hasAirBrakes
    ensures forall m :: m in data.months ==>
              !data.months[m].ok && !data.months[m].def && data.months[m].date == ""
              && data.months[m].mileage == "" && data.months[m].signature == ""
  {
    var months: map<Month, MonthInspection> := map[];
    for i := 0 to |MONTHS|
      invariant forall k :: k in MONTHS[..i] ==> k in months
      invariant forall k :: k in months ==> months[k] == BLANK_MONTH
    {
      months := months[MONTHS[i] := BLANK_MONTH];
    }
    MonthsIndexed();
    assert MONTHS[..|MONTHS|] == MONTHS;
    data := InspectionFormData(DEFAULT_VEHICLE, months);
  }
}
