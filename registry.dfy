/**
  The authorisation lookup in recognition/views.py, over an abstract registry.
  The Vehicle, LicensePlate and BorderCheck tables are sequences in
  primary-key order; `.first()` on an unordered query is the first element
  in that order.
 */
module Registry {
  import opened Wrappers

  /** A vehicle and the numbers of the license plates registered to it. */
  datatype Vehicle = Vehicle(id: nat, plates: seq<string>)

  /** One border check of a vehicle and its approval flag. */
  datatype CheckRecord = CheckRecord(vehicle: nat, approved: bool)

  datatype Records = Records(vehicles: seq<Vehicle>, checks: seq<CheckRecord>)

  /**
    Outcome of the lookup for a voted plate. `Ambiguous` is the case where
    `Vehicle.objects.get` raises MultipleObjectsReturned.
   */
  datatype Decision =
    | VehicleNotFound
    | Ambiguous
    | NotApproved(vehicle: nat)
    | Approved(vehicle: nat)

  /** `plate` is registered to `v`. */
  predicate HasPlate(v: Vehicle, plate: string) {
    plate in v.plates
  }

  /** Index of the first vehicle at or after `i` with the plate: `filter(...).first()`. */
  function FindFrom(vehicles: seq<Vehicle>, plate: string, i: nat): (r: Option<nat>)
    requires i <= |vehicles|
    ensures r.None? <==> forall j :: i <= j < |vehicles| ==> !HasPlate(vehicles[j], plate)
    ensures r.Some? ==>
      i <= r.value < |vehicles| && HasPlate(vehicles[r.value], plate) &&
      forall j :: i <= j < r.value ==> !HasPlate(vehicles[j], plate)
    decreases |vehicles| - i
  {
    if i == |vehicles| then None
    else if HasPlate(vehicles[i], plate) then Some(i)
    else FindFrom(vehicles, plate, i + 1)
  }

  /** Number of (vehicle, plate) rows the join `license_plates__license_plate_number=plate` yields. */
  function MatchRows(vehicles: seq<Vehicle>, plate: string): (n: nat)
    ensures n == 0 <==> forall j :: 0 <= j < |vehicles| ==> !HasPlate(vehicles[j], plate)
  {
    if vehicles == [] then 0
    else
      assert forall j :: 1 <= j < |vehicles| ==> vehicles[j] == vehicles[1..][j - 1];
      multiset(vehicles[0].plates)[plate] + MatchRows(vehicles[1..], plate)
  }

  /** Two different vehicles carrying the plate make the join yield at least two rows. */
  lemma {:induction false} DistinctHoldersCount(vehicles: seq<Vehicle>, plate: string, a: nat, b: nat)
    requires a < |vehicles| && b < |vehicles|
    ensures a != b && HasPlate(vehicles[a], plate) && HasPlate(vehicles[b], plate) ==>
      MatchRows(vehicles, plate) >= 2
  {
    if a != b && HasPlate(vehicles[a], plate) && HasPlate(vehicles[b], plate) {
      var rest := vehicles[1..];
      if a == 0 || b == 0 {
        var other := if a == 0 then b else a;
        assert vehicles[other] == rest[other - 1];
        assert plate in multiset(vehicles[0].plates);
      } else {
        assert vehicles[a] == rest[a - 1] && vehicles[b] == rest[b - 1];
        DistinctHoldersCount(rest, plate, a - 1, b - 1);
      }
    }
  }

  /** `border_check = BorderCheck.objects.filter(vehicle=v).first()` exists and `is_approved`. */
  function FirstApproval(checks: seq<CheckRecord>, v: nat): (r: bool)
    ensures r <==> (exists k :: 0 <= k < |checks| && checks[k].vehicle == v && checks[k].approved &&
                              forall j :: 0 <= j < k ==> checks[j].vehicle != v)
  {
    if checks == [] then false
    else if checks[0].vehicle == v then checks[0].approved
    else
      var r := FirstApproval(checks[1..], v);
      assert forall j :: 1 <= j < |checks| ==> checks[j] == checks[1..][j - 1];
      if r then
        var k :| 0 <= k < |checks[1..]| && checks[1..][k].vehicle == v && checks[1..][k].approved &&
          forall j :: 0 <= j < k ==> checks[1..][j].vehicle != v;
        assert checks[k + 1].vehicle == v;
        r
      else r
  }

  /** Vehicle `v` is registered and its first border check is approved. */
  ghost predicate Cleared(reg: Records, v: nat) {
    exists i :: 0 <= i < |reg.vehicles| && reg.vehicles[i].id == v && FirstApproval(reg.checks, v)
  }

  /** The lookup that decides whether the voted plate opens the gate. */
  function Decide(reg: Records, plate: string): (d: Decision)
    ensures d == VehicleNotFound <==> forall i :: 0 <= i < |reg.vehicles| ==> !HasPlate(reg.vehicles[i], plate)
    ensures d == Ambiguous <==> MatchRows(reg.vehicles, plate) > 1
    ensures d.Approved? <==>
      MatchRows(reg.vehicles, plate) == 1 &&
      exists i :: 0 <= i < |reg.vehicles| && HasPlate(reg.vehicles[i], plate) && FirstApproval(reg.checks, reg.vehicles[i].id)
    ensures d.Approved? || d.NotApproved? ==>
      exists i :: 0 <= i < |reg.vehicles| && HasPlate(reg.vehicles[i], plate) && reg.vehicles[i].id == d.vehicle
    ensures d.Approved? ==> Cleared(reg, d.vehicle)
    ensures d.NotApproved? ==> !FirstApproval(reg.checks, d.vehicle)
  {
    match FindFrom(reg.vehicles, plate, 0)
    case None => VehicleNotFound
    case Some(i) =>
      if MatchRows(reg.vehicles, plate) > 1 then Ambiguous
      else
        var v := reg.vehicles[i].id;
        forall k | 0 <= k < |reg.vehicles| ensures HasPlate(reg.vehicles[k], plate) ==> k == i {
          DistinctHoldersCount(reg.vehicles, plate, k, i);
        }
        if FirstApproval(reg.checks, v) then Approved(v) else NotApproved(v)
  }
}
