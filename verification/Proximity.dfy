/** The phone's proximity flag per device: near above one signal strength, away below a lower one. */
module Proximity {
  import opened Wrappers

  type Device = string

  datatype ScanResult = ScanResult(device: Device, rssi: int, offersService: bool)

  datatype ProximityEvent = ProximityEvent(device: Device, rssi: int, nearby: bool)

  function Flag(previous: bool, rssi: int, near: int, far: int): bool {
    if previous then rssi >= far else rssi >= near
  }

  /** The flag after a sequence of samples of one device. */
  function FlagAfter(start: bool, samples: seq<int>, near: int, far: int): bool {
    if samples == [] then start
    else Flag(FlagAfter(start, samples[..|samples| - 1], near, far), samples[|samples| - 1], near, far)
  }

  /** The samples of one device among the results that offer the service. */
  function SamplesOf(results: seq<ScanResult>, device: Device): seq<int> {
    if results == [] then []
    else
      var r := results[|results| - 1];
      SamplesOf(results[..|results| - 1], device) + if r.offersService && r.device == device then [r.rssi] else []
  }

  predicate IsNearby(nearby: map<Device, bool>, device: Device) {
    device in nearby && nearby[device]
  }

  function Heard(nearby: map<Device, bool>, r: ScanResult, near: int, far: int): map<Device, bool> {
    if r.offersService then nearby[r.device := Flag(IsNearby(nearby, r.device), r.rssi, near, far)] else nearby
  }

  /** The listener's map and the events it sends, result by result. */
  function HeardAll(nearby: map<Device, bool>, results: seq<ScanResult>, near: int, far: int)
    : (map<Device, bool>, seq<ProximityEvent>)
  {
    if results == [] then (nearby, [])
    else
      var r := results[|results| - 1];
      var (before, events) := HeardAll(nearby, results[..|results| - 1], near, far);
      var after := Heard(before, r, near, far);
      (after, events + if r.offersService then [ProximityEvent(r.device, r.rssi, after[r.device])] else [])
  }

  lemma HeardNext(before: map<Device, bool>, start: map<Device, bool>, results: seq<ScanResult>, k: nat,
                  near: int, far: int)
    requires k < |results| && before == HeardAll(start, results[..k], near, far).0
    ensures var (after, events) := HeardAll(start, results[..k + 1], near, far);
            && after == Heard(before, results[k], near, far)
            && var r := results[k];
               events == HeardAll(start, results[..k], near, far).1 +
                         if r.offersService then [ProximityEvent(r.device, r.rssi, after[r.device])] else []
  {
    assert results[..k + 1][..k] == results[..k];
  }

  lemma FlagAppend(start: bool, samples: seq<int>, x: int, near: int, far: int)
    ensures FlagAfter(start, samples + [x], near, far) == Flag(FlagAfter(start, samples, near, far), x, near, far)
  {
    assert (samples + [x])[..|samples|] == samples;
  }

  class BleService {
    var nearby: map<Device, bool>

    constructor ()
      ensures nearby == map[]
    {
      nearby := map[];
    }

    method OnScanResults(results: seq<ScanResult>, near: int, far: int) returns (events: seq<ProximityEvent>)
      modifies this
      ensures (nearby, events) == HeardAll(old(nearby), results, near, far)
    {
      events := [];
      for k := 0 to |results|
        invariant (nearby, events) == HeardAll(old(nearby), results[..k], near, far)
      {
        var result := results[k];
        HeardNext(nearby, old(nearby), results, k, near, far);
        if result.offersService {
          var previous := if result.device in nearby then nearby[result.device] else false;
          var flag := if previous then result.rssi >= far else result.rssi >= near;
          nearby := nearby[result.device := flag];
          events := events + [ProximityEvent(result.device, result.rssi, flag)];
        } else {
          assert events + [] == events;
        }
      }
      assert results[..|results|] == results;
    }

    method Stop()
      modifies this
      ensures nearby == map[]
    {
      nearby := map[];
    }
  }

  /** Each device's flag moves by that device's own samples and no other. */
  lemma {:induction false} DevicesAreIndependent(nearby: map<Device, bool>, results: seq<ScanResult>, near: int,
                                                 far: int, d: Device)
    ensures IsNearby(HeardAll(nearby, results, near, far).0, d) ==
            FlagAfter(IsNearby(nearby, d), SamplesOf(results, d), near, far)
  {
    if results != [] {
      var n := |results| - 1;
      var r, samples := results[n], SamplesOf(results[..n], d);
      DevicesAreIndependent(nearby, results[..n], near, far, d);
      if r.offersService && r.device == d {
        FlagAppend(IsNearby(nearby, d), samples, r.rssi, near, far);
      } else {
        assert samples + [] == samples;
        assert IsNearby(Heard(HeardAll(nearby, results[..n], near, far).0, r, near, far), d) ==
               IsNearby(HeardAll(nearby, results[..n], near, far).0, d);
      }
    }
  }

  /** The results that offer the service. */
  function Offering(results: seq<ScanResult>): seq<ScanResult> {
    if results == [] then []
    else
      var r := results[|results| - 1];
      Offering(results[..|results| - 1]) + if r.offersService then [r] else []
  }

  /** Every result that offers the service sends one event, in order, with its device and signal strength;
      the others change nothing and send nothing. */
  lemma {:induction false} EventsFollowResults(nearby: map<Device, bool>, results: seq<ScanResult>, near: int, far: int)
    ensures HeardAll(nearby, results, near, far) == HeardAll(nearby, Offering(results), near, far)
    ensures var events, offering := HeardAll(nearby, results, near, far).1, Offering(results);
            && |events| == |offering|
            && forall k :: 0 <= k < |events| ==>
                 events[k].device == offering[k].device && events[k].rssi == offering[k].rssi
  {
    if results != [] {
      var n := |results| - 1;
      EventsFollowResults(nearby, results[..n], near, far);
      var before := Offering(results[..n]);
      if results[n].offersService {
        assert Offering(results)[..|before|] == before;
      } else {
        assert Offering(results) == before;
        assert HeardAll(nearby, results[..n], near, far).1 + [] == HeardAll(nearby, results[..n], near, far).1;
      }
    }
  }

  /** The last event sent for a device carries its flag. */
  lemma {:induction false} LastEventCarriesFlag(nearby: map<Device, bool>, results: seq<ScanResult>, near: int,
                                                far: int, i: nat)
    requires var (after, events) := HeardAll(nearby, results, near, far);
             i < |events| && forall j :: i < j < |events| ==> events[j].device != events[i].device
    ensures var (after, events) := HeardAll(nearby, results, near, far);
            events[i].nearby == IsNearby(after, events[i].device)
  {
    var n := |results| - 1;
    var (before, events) := HeardAll(nearby, results[..n], near, far);
    var (after, all) := HeardAll(nearby, results, near, far);
    if i < |events| {
      assert forall j :: 0 <= j < |events| ==> events[j] == all[j];
      LastEventCarriesFlag(nearby, results[..n], near, far, i);
      assert results[n].offersService ==> all[|events|].device == results[n].device;
    }
  }

  /** The last sample that is not between the thresholds. */
  function LastOutside(samples: seq<int>, near: int, far: int): Option<int> {
    if samples == [] then None
    else
      var x := samples[|samples| - 1];
      if far <= x < near then LastOutside(samples[..|samples| - 1], near, far) else Some(x)
  }

  /** Hysteresis: the last sample outside [far, near) decides, and a device never heard outside is away. */
  predicate Decided(samples: seq<int>, near: int, far: int) {
    FlagAfter(false, samples, near, far) ==
    match LastOutside(samples, near, far)
    case None => false
    case Some(x) => x >= near
  }

  lemma {:induction false} LastOutsideDecides(samples: seq<int>, near: int, far: int)
    requires far <= near
    ensures Decided(samples, near, far)
  {
    if samples != [] { LastOutsideDecides(samples[..|samples| - 1], near, far); }
  }

  /** The flag has this meaning for every sequence of samples exactly when the far threshold is not above
      the near one; with crossed thresholds a steady signal makes the flag alternate. */
  lemma HysteresisExactly(near: int, far: int)
    ensures (forall samples: seq<int> :: Decided(samples, near, far)) <==> far <= near
  {
    if far <= near {
      forall samples: seq<int> ensures Decided(samples, near, far) { LastOutsideDecides(samples, near, far); }
    } else {
      var steady := [near, near];
      assert steady[..1] == [near] && [near][..0] == [];
      assert FlagAfter(false, [near], near, far);
      assert !FlagAfter(false, steady, near, far);
      assert !Decided(steady, near, far);
    }
  }
}
