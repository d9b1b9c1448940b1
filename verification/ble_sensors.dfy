/** The BLE sensor client of src/BleSensors as objects that change in place: the NimBLE scan
    (only the parts the client touches), the advertisement callback object and the
    `BleSensors` class with its slot store. */
module Ble {
  import opened Common
  import opened BleSpec

  /** The radio stack's scan object, reduced to what the client changes: whether `stop()` has
      been called, the duration it was started with, and the results it keeps buffered. */
  class BleScan {
    var stopped: bool
    var duration: nat
    var results: seq<string>

    constructor ()
      ensures stopped && duration == 0 && results == []
    {
      stopped, duration, results := true, 0, [];
    }

    /** `start(duration, false)`: scanning runs until the duration elapses or `stop()`. */
    method Start(d: nat)
      modifies this`stopped, this`duration
      ensures !stopped && duration == d
    {
      stopped, duration := false, d;
    }

    /** `stop()`. */
    method Stop()
      modifies this`stopped
      ensures stopped
    {
      stopped := true;
    }

    /** `clearResults()`: drops the buffered scan results. */
    method ClearResults()
      modifies this`results
      ensures results == []
    {
      results := [];
    }
  }

  /** The linear lookup of `onResult`: the first index whose entry equals `addr` exactly. */
  method FindAddress(known: seq<string>, addr: string) returns (idx: nat, found: bool)
    ensures found <==> addr in known
    ensures idx == IndexOf(known, addr)
    ensures found ==> idx < |known| && known[idx] == addr
    ensures !found ==> idx == |known|
  {
    idx, found := 0, false;
    while idx < |known|
      invariant idx <= |known|
      invariant forall j :: 0 <= j < idx ==> known[j] != addr
    {
      if addr == known[idx] {
        found := true;
        break;
      }
      idx := idx + 1;
    }
    IndexOfFound(known, addr);
  }

  /** `convertServiceData`: each byte written as two lower-case hex digits into a character
      buffer one longer than the text, which ends with a terminating zero. */
  method ConvertServiceData(serviceData: seq<Byte>) returns (text: string)
    ensures text == Hex(serviceData)
    ensures |text| == 2 * |serviceData|
  {
    var n := |serviceData|;
    var spr := new char[2 * n + 1];
    for i := 0 to n
      invariant spr[..2 * i] == Hex(serviceData[..i])
    {
      var pair := HexPair(serviceData[i]);
      ghost var done := spr[..2 * i];
      spr[2 * i] := pair[0];
      spr[2 * i + 1] := pair[1];
      HexSnoc(serviceData, i, done, spr[..2 * i + 2]);
    }
    spr[2 * n] := 0 as char;
    text := spr[..2 * n];
    assert serviceData[..n] == serviceData;
    HexLength(serviceData);
  }

  /** `MyAdvertisedDeviceCallbacks`: the callback object of one scan, holding the scan, a copy
      of the known addresses, the caller's slot store and the found-counter. */
  class AdvertisedDeviceCallbacks {
    const scan: BleScan
    const knownAddresses: seq<string>
    const sensorData: array<BleData>
    var devicesFound: int

    /** The slot store is as long as the table of known addresses. */
    ghost predicate Valid()
      reads this
    {
      sensorData.Length == |knownAddresses|
    }

    /** What the callbacks can observe and change. */
    ghost function State(): ScanState
      reads this, sensorData, scan
    {
      ScanState(sensorData[..], devicesFound, scan.stopped)
    }

    /** A fresh callback object: the counter starts at 0. */
    constructor (scan: BleScan, knownAddresses: seq<string>, sensorData: array<BleData>)
      requires sensorData.Length == |knownAddresses|
      ensures Valid()
      ensures this.scan == scan && this.knownAddresses == knownAddresses
      ensures this.sensorData == sensorData && devicesFound == 0
    {
      this.scan := scan;
      this.knownAddresses := knownAddresses;
      this.sensorData := sensorData;
      devicesFound := 0;
    }

    /** `onResult`: one advertisement, with the decoder's verdict on it. */
    method OnResult(adv: Advertisement)
      requires Valid()
      modifies sensorData, this`devicesFound, scan`stopped
      ensures State() == Step(knownAddresses, old(State()), adv)
    {
      var idx, deviceFound := FindAddress(knownAddresses, adv.address);
      if adv.decoded.Some? && deviceFound {
        var r := adv.decoded.value;
        sensorData[idx] := sensorData[idx].(temperature := r.temperature);
        sensorData[idx] := sensorData[idx].(humidity := r.humidity);
        sensorData[idx] := sensorData[idx].(battLevel := r.batt);
        sensorData[idx] := sensorData[idx].(rssi := r.rssi);
        sensorData[idx] := sensorData[idx].(valid := sensorData[idx].battLevel > 0);
        devicesFound := devicesFound + 1;
      }
      // The number of successful reports has reached the table length: stop the scan.
      if devicesFound == |knownAddresses| {
        scan.Stop();
      }
    }
  }

  /** `BleSensors`: the table of known sensor addresses and the slot store, one slot per
      address; both are fixed at construction, so the store keeps the table's length. */
  class BleSensors {
    const knownSensors: seq<string>
    const data: array<BleData>
    var scan: BleScan?

    ghost predicate Valid()
      reads this
    {
      data.Length == |knownSensors|
    }

    /** Stores the addresses and sizes the store to their number, every slot zero. */
    constructor (knownSensors: seq<string>)
      ensures Valid() && fresh(data)
      ensures this.knownSensors == knownSensors
      ensures data[..] == seq(|knownSensors|, _ => EmptySlot)
      ensures scan == null
    {
      this.knownSensors := knownSensors;
      data := new BleData[|knownSensors|](_ => EmptySlot);
      scan := null;
    }

    /** `begin()`: does nothing. */
    method Begin()
      requires Valid()
      ensures unchanged(this) && unchanged(data)
    {
    }

    /** `clearScanResults()`: acts on the scan object only; the store is left alone. */
    method ClearScanResults()
      requires scan != null
      modifies scan`results
      ensures scan.results == [] && unchanged(data)
    {
      scan.ClearResults();
    }

    /** `resetData()`: clears the `valid` flag of every slot and changes nothing else. */
    method ResetData()
      requires Valid()
      modifies data
      ensures data[..] == Invalidated(old(data[..]))
    {
      InvalidatedAt(data[..]);
      for i := 0 to |knownSensors|
        invariant forall k :: 0 <= k < i ==> data[k] == old(data[k]).(valid := false)
        invariant forall k :: i <= k < data.Length ==> data[k] == old(data[k])
      {
        data[i] := data[i].(valid := false);
      }
    }

    /** `getData(duration)`: hands the scan a fresh callback object that shares this store and
        copies the table, and starts the scan, which blocks while the callbacks run for the
        advertisements `advs` received within the duration, until one of them stops the scan;
        then returns 0. */
    method GetData(duration: nat, radio: BleScan, advs: seq<Advertisement>) returns (count: nat)
      requires Valid()
      modifies this`scan, radio`stopped, radio`duration, data
      ensures count == 0
      ensures scan == radio && radio.duration == duration
      ensures var t := Scan(knownSensors, Start(old(data[..])), advs);
              data[..] == t.slots && radio.stopped == t.stopped
    {
      scan := radio;
      var cb := new AdvertisedDeviceCallbacks(radio, knownSensors, data);
      radio.Start(duration);
      var i := 0;
      while i < |advs| && !radio.stopped
        invariant i <= |advs|
        invariant cb.Valid() && cb.scan == radio && cb.knownAddresses == knownSensors
        invariant cb.sensorData == data && scan == radio && radio.duration == duration
        invariant Scan(knownSensors, cb.State(), advs[i..]) == Scan(knownSensors, Start(old(data[..])), advs)
        decreases |advs| - i
      {
        assert advs[i..][1..] == advs[i + 1..];
        cb.OnResult(advs[i]);
        i := i + 1;
      }
      count := 0;
    }
  }
}
