/** Specification of the BLE sensor match engine (src/BleSensors): the slot records, what one
    advertisement callback does to the slots, the found-counter and the scan, what a sequence
    of callbacks does, and the hex text the callback builds from service data. */
module BleSpec {
  import opened Common

  /** One slot of the store (`struct BleDataS`); temperature and humidity are only copied,
      so `real` stands in for the source's `float`. */
  datatype BleData = BleData(valid: bool, temperature: real, humidity: real, battLevel: Byte, rssi: int)

  /** The value a slot holds after `std::vector::resize`: every field value-initialised to zero. */
  const EmptySlot := BleData(false, 0.0, 0.0, 0, 0)

  /** What the external payload decoder reports for one advertisement: the `tempc`, `hum`,
      `batt` (already cast to `uint8_t`) and `rssi` entries of its JSON document. */
  datatype Reading = Reading(temperature: real, humidity: real, batt: Byte, rssi: int)

  /** One callback invocation: the advertiser's MAC address as text, and the decoder's verdict
      on the advertisement (`None` when the decoder does not recognise it). */
  datatype Advertisement = Advertisement(address: string, decoded: Option<Reading>)

  /** What one scan's callbacks can observe and change: the slot store, the found-counter
      (`m_devices_found`) and whether `stop()` has been called on the scan. */
  datatype ScanState = ScanState(slots: seq<BleData>, devicesFound: int, stopped: bool)

  /** The state at the start of a scan: a fresh callback object, whose counter is 0. */
  function Start(slots: seq<BleData>): ScanState
  {
    ScanState(slots, 0, false)
  }

  // ---------------------------------------------------------------------------------------
  // Address lookup

  /** The first index of `addr` in `known`, or `|known|` when it is not there. */
  function IndexOf(known: seq<string>, addr: string): (idx: nat)
    ensures idx <= |known|
    ensures idx < |known| ==> known[idx] == addr
    ensures forall j :: 0 <= j < idx ==> known[j] != addr
  {
    if known == [] then 0
    else if known[0] == addr then 0
    else 1 + IndexOf(known[1..], addr)
  }

  /** The lookup finds the address exactly when it is in the table. */
  lemma IndexOfFound(known: seq<string>, addr: string)
    ensures IndexOf(known, addr) < |known| <==> addr in known
  {
  }

  /** In a table without repeated entries, the lookup of entry `i` finds `i`. */
  lemma IndexOfDistinct(known: seq<string>, i: nat)
    requires i < |known|
    requires forall j, k :: 0 <= j < k < |known| ==> known[j] != known[k]
    ensures IndexOf(known, known[i]) == i
  {
  }

  // ---------------------------------------------------------------------------------------
  // One callback

  /** The record written into a slot from a successful decode: every field from the reading,
      and the slot is valid exactly when the battery level is non-zero. */
  function Store(r: Reading): (d: BleData)
    ensures d.valid <==> r.batt > 0
    ensures d.temperature == r.temperature && d.humidity == r.humidity
    ensures d.battLevel == r.batt && d.rssi == r.rssi
  {
    BleData(r.batt > 0, r.temperature, r.humidity, r.batt, r.rssi)
  }

  /** True when the advertisement is a successful decode of a known address. */
  predicate Matched(known: seq<string>, adv: Advertisement)
  {
    adv.decoded.Some? && adv.address in known
  }

  /** One `onResult` callback: look the address up; on a successful decode of a known address
      overwrite that slot and count one more device; then stop the scan when the counter
      equals the table size. */
  function Step(known: seq<string>, s: ScanState, adv: Advertisement): (t: ScanState)
    requires |s.slots| == |known|
    ensures |t.slots| == |known|
  {
    var idx := IndexOf(known, adv.address);
    if adv.decoded.Some? && idx < |known| then
      var found := s.devicesFound + 1;
      ScanState(s.slots[idx := Store(adv.decoded.value)], found, s.stopped || found == |known|)
    else
      ScanState(s.slots, s.devicesFound, s.stopped || s.devicesFound == |known|)
  }

  /** An advertisement from an address not in the table changes no slot and not the counter. */
  lemma StepUnknown(known: seq<string>, s: ScanState, adv: Advertisement)
    requires |s.slots| == |known|
    requires adv.address !in known
    ensures Step(known, s, adv).slots == s.slots
    ensures Step(known, s, adv).devicesFound == s.devicesFound
  {
    IndexOfFound(known, adv.address);
  }

  /** A failed decode changes no slot and not the counter, even for a known address. */
  lemma StepFailedDecode(known: seq<string>, s: ScanState, adv: Advertisement)
    requires |s.slots| == |known|
    requires adv.decoded.None?
    ensures Step(known, s, adv).slots == s.slots
    ensures Step(known, s, adv).devicesFound == s.devicesFound
  {
  }

  /** A successful decode of a known address writes exactly the slot of its first occurrence in
      the table, from the reading, and counts one more device. */
  lemma StepMatched(known: seq<string>, s: ScanState, adv: Advertisement)
    requires |s.slots| == |known|
    requires Matched(known, adv)
    ensures var t := Step(known, s, adv);
      var idx := IndexOf(known, adv.address);
      && idx < |known| && known[idx] == adv.address
      && (forall j :: 0 <= j < idx ==> known[j] != adv.address)
      && t.slots[idx] == Store(adv.decoded.value)
      && (forall j :: 0 <= j < |known| && j != idx ==> t.slots[j] == s.slots[j])
      && t.devicesFound == s.devicesFound + 1
  {
    IndexOfFound(known, adv.address);
  }

  /** After every callback, `stop()` has been called iff it had been before or the counter now
      equals the table size; with an empty table the first advertisement stops the scan. */
  lemma StepStops(known: seq<string>, s: ScanState, adv: Advertisement)
    requires |s.slots| == |known|
    ensures Step(known, s, adv).stopped <==> s.stopped || Step(known, s, adv).devicesFound == |known|
    ensures known == [] && s.devicesFound == 0 ==> Step(known, s, adv).stopped
  {
  }

  // ---------------------------------------------------------------------------------------
  // A sequence of callbacks

  /** The callbacks of one scan, applied in the order the radio stack delivers them. */
  function Run(known: seq<string>, s: ScanState, advs: seq<Advertisement>): (t: ScanState)
    requires |s.slots| == |known|
    ensures |t.slots| == |known|
    decreases |advs|
  {
    if advs == [] then s else Run(known, Step(known, s, advs[0]), advs[1..])
  }

  /** The number of successful decodes of known addresses, repeats of one sensor included. */
  function CountMatched(known: seq<string>, advs: seq<Advertisement>): nat
    decreases |advs|
  {
    if advs == [] then 0
    else (if Matched(known, advs[0]) then 1 else 0) + CountMatched(known, advs[1..])
  }

  /** The counter grows by exactly one per successful decode of a known address, so it counts
      repeated reports of the same sensor again. */
  lemma {:induction false} RunCounter(known: seq<string>, s: ScanState, advs: seq<Advertisement>)
    requires |s.slots| == |known|
    ensures Run(known, s, advs).devicesFound == s.devicesFound + CountMatched(known, advs)
    decreases |advs|
  {
    if advs != [] {
      IndexOfFound(known, advs[0].address);
      RunCounter(known, Step(known, s, advs[0]), advs[1..]);
    }
  }

  /** Whether the scan has been stopped after a sequence of callbacks, from a state whose counter
      has not passed the table size (and equals it only once stopped, or for an empty table). */
  lemma {:induction false} RunStopped(known: seq<string>, s: ScanState, advs: seq<Advertisement>)
    requires |s.slots| == |known|
    requires 0 <= s.devicesFound <= |known|
    requires s.devicesFound == |known| ==> s.stopped || known == []
    ensures Run(known, s, advs).stopped <==>
              s.stopped || (|advs| > 0 && s.devicesFound + CountMatched(known, advs) >= |known|)
    decreases |advs|
  {
    if s.stopped {
      RunStaysStopped(known, s, advs);
    } else if advs != [] {
      IndexOfFound(known, advs[0].address);
      var s' := Step(known, s, advs[0]);
      RunStopped(known, s', advs[1..]);
    }
  }

  /** `stop()` cannot be undone by a later callback. */
  lemma {:induction false} RunStaysStopped(known: seq<string>, s: ScanState, advs: seq<Advertisement>)
    requires |s.slots| == |known|
    requires s.stopped
    ensures Run(known, s, advs).stopped
    decreases |advs|
  {
    if advs != [] {
      RunStaysStopped(known, Step(known, s, advs[0]), advs[1..]);
    }
  }

  /** For one scan from a fresh callback object: the scan ends up stopped iff at least one
      advertisement arrived and the successful known decodes reached the table size. */
  lemma ScanStopped(known: seq<string>, slots: seq<BleData>, advs: seq<Advertisement>)
    requires |slots| == |known|
    ensures Run(known, Start(slots), advs).stopped <==>
              |advs| > 0 && CountMatched(known, advs) >= |known|
  {
    RunStopped(known, Start(slots), advs);
  }

  /** True when the advertisement is a successful decode written into slot `i`. */
  predicate Hits(known: seq<string>, adv: Advertisement, i: nat)
  {
    adv.decoded.Some? && IndexOf(known, adv.address) == i
  }

  /** The reading of the last advertisement in `advs` that writes slot `i`, if any. */
  function LastFor(known: seq<string>, advs: seq<Advertisement>, i: nat): Option<Reading>
    decreases |advs|
  {
    if advs == [] then None
    else
      var later := LastFor(known, advs[1..], i);
      if later.Some? then later
      else if Hits(known, advs[0], i) then advs[0].decoded
      else None
  }

  /** Last write wins: after a sequence of callbacks slot `i` holds the last successful decode
      that matched it, and is untouched when none did; unknown addresses and failed decodes
      never change a slot. */
  lemma {:induction false} RunSlot(known: seq<string>, s: ScanState, advs: seq<Advertisement>, i: nat)
    requires |s.slots| == |known| && i < |known|
    ensures Run(known, s, advs).slots[i] ==
              match LastFor(known, advs, i)
              case None => s.slots[i]
              case Some(r) => Store(r)
    decreases |advs|
  {
    if advs != [] {
      RunSlot(known, Step(known, s, advs[0]), advs[1..], i);
    }
  }

  /** `LastFor` finds a reading exactly when some advertisement writes slot `i`. */
  lemma {:induction false} LastForSome(known: seq<string>, advs: seq<Advertisement>, i: nat)
    ensures LastFor(known, advs, i).Some? <==> exists j :: 0 <= j < |advs| && Hits(known, advs[j], i)
    ensures LastFor(known, advs, i).Some? ==>
              exists j :: 0 <= j < |advs| && Hits(known, advs[j], i) && advs[j].decoded == LastFor(known, advs, i)
    decreases |advs|
  {
    if advs != [] {
      LastForSome(known, advs[1..], i);
      if LastFor(known, advs[1..], i).Some? {
        var j :| 0 <= j < |advs[1..]| && Hits(known, advs[1..][j], i) && advs[1..][j].decoded == LastFor(known, advs[1..], i);
        assert Hits(known, advs[j + 1], i);
      } else if !Hits(known, advs[0], i) {
        forall j | 0 <= j < |advs| ensures !Hits(known, advs[j], i) {
          if j > 0 { assert advs[j] == advs[1..][j - 1]; }
        }
      }
    }
  }

  /** When every sensor of a table without repeats reports at least once with a non-zero
      battery level, and no successful decode reports a zero level, every slot ends up valid. */
  lemma AllReportedAllValid(known: seq<string>, s: ScanState, advs: seq<Advertisement>)
    requires |s.slots| == |known|
    requires forall j, k :: 0 <= j < k < |known| ==> known[j] != known[k]
    requires forall j :: 0 <= j < |advs| && advs[j].decoded.Some? ==> advs[j].decoded.value.batt > 0
    requires forall i :: 0 <= i < |known| ==>
               exists j :: 0 <= j < |advs| && advs[j].address == known[i] && advs[j].decoded.Some?
    ensures forall i :: 0 <= i < |known| ==> Run(known, s, advs).slots[i].valid
  {
    forall i | 0 <= i < |known| ensures Run(known, s, advs).slots[i].valid {
      var j :| 0 <= j < |advs| && advs[j].address == known[i] && advs[j].decoded.Some?;
      IndexOfDistinct(known, i);
      assert Hits(known, advs[j], i);
      LastForSome(known, advs, i);
      RunSlot(known, s, advs, i);
    }
  }

  /** The counter is not a count of distinct sensors: with two known sensors, two reports from
      the first one stop the scan although the second one never reported. */
  lemma RepeatedReportStopsScan(r: Reading)
    requires r.batt > 0
    ensures var known := ["aa:bb:cc:dd:ee:ff", "11:22:33:44:55:66"];
      var adv := Advertisement("aa:bb:cc:dd:ee:ff", Some(r));
      var t := Run(known, Start([EmptySlot, EmptySlot]), [adv, adv]);
      t.stopped && t.devicesFound == 2 && !t.slots[1].valid
  {
    var known := ["aa:bb:cc:dd:ee:ff", "11:22:33:44:55:66"];
    var adv := Advertisement("aa:bb:cc:dd:ee:ff", Some(r));
    assert IndexOf(known, adv.address) == 0;
    var s1 := Step(known, Start([EmptySlot, EmptySlot]), adv);
    var s2 := Step(known, s1, adv);
    assert Run(known, s2, []) == s2;
    assert Run(known, s1, [adv]) == s2;
  }

  // ---------------------------------------------------------------------------------------
  // The scan `getData` runs

  /** The blocking scan of `getData`: the radio delivers the advertisements it receives, in
      order, until the duration elapses (none are left) or a callback has stopped the scan;
      no callback runs after `stop()`. */
  function Scan(known: seq<string>, s: ScanState, advs: seq<Advertisement>): (t: ScanState)
    requires |s.slots| == |known|
    ensures |t.slots| == |known|
    decreases |advs|
  {
    if advs == [] || s.stopped then s else Scan(known, Step(known, s, advs[0]), advs[1..])
  }

  /** A scan runs the callbacks of a prefix of the advertisements: the shortest one after which
      the scan is stopped, or all of them. Every fact about `Run` thus holds of what it delivers. */
  lemma {:induction false} ScanIsRunPrefix(known: seq<string>, s: ScanState, advs: seq<Advertisement>)
    returns (k: nat)
    requires |s.slots| == |known|
    ensures k <= |advs| && Scan(known, s, advs) == Run(known, s, advs[..k])
    ensures k == |advs| || Run(known, s, advs[..k]).stopped
    ensures forall j :: 0 <= j < k ==> !Run(known, s, advs[..j]).stopped
    decreases |advs|
  {
    assert advs[..0] == [];
    if advs == [] || s.stopped {
      k := 0;
    } else {
      var s1 := Step(known, s, advs[0]);
      var k1 := ScanIsRunPrefix(known, s1, advs[1..]);
      k := k1 + 1;
      assert advs[..k][1..] == advs[1..][..k1];
      forall j | 0 < j < k
        ensures !Run(known, s, advs[..j]).stopped
      {
        assert advs[..j][1..] == advs[1..][..j - 1];
      }
    }
  }

  /** Two known sensors; an unknown advertiser, then both sensors, then the first one again:
      the scan stops at the second sensor's report, so the last advertisement is never
      delivered and the first slot keeps the first reading. */
  lemma TwoSensorScan()
    ensures var known := ["aa:bb:cc:dd:ee:ff", "11:22:33:44:55:66"];
      var advs := [Advertisement("00:00:00:00:00:01", Some(Reading(20.0, 40.0, 90, -60))),
                   Advertisement("aa:bb:cc:dd:ee:ff", Some(Reading(21.5, 55.0, 80, -70))),
                   Advertisement("11:22:33:44:55:66", Some(Reading(19.0, 48.0, 60, -75))),
                   Advertisement("aa:bb:cc:dd:ee:ff", Some(Reading(22.0, 50.0, 80, -65)))];
      var t := Scan(known, Start([EmptySlot, EmptySlot]), advs);
      t.stopped && t.devicesFound == 2
      && t.slots == [BleData(true, 21.5, 55.0, 80, -70), BleData(true, 19.0, 48.0, 60, -75)]
  {
    var known := ["aa:bb:cc:dd:ee:ff", "11:22:33:44:55:66"];
    var a0 := Advertisement("00:00:00:00:00:01", Some(Reading(20.0, 40.0, 90, -60)));
    var a1 := Advertisement("aa:bb:cc:dd:ee:ff", Some(Reading(21.5, 55.0, 80, -70)));
    var a2 := Advertisement("11:22:33:44:55:66", Some(Reading(19.0, 48.0, 60, -75)));
    var a3 := Advertisement("aa:bb:cc:dd:ee:ff", Some(Reading(22.0, 50.0, 80, -65)));
    assert IndexOf(known, a0.address) == 2;
    assert IndexOf(known, a1.address) == 0;
    assert IndexOf(known, a2.address) == 1;
    var s0 := Start([EmptySlot, EmptySlot]);
    var s1 := Step(known, s0, a0);
    var s2 := Step(known, s1, a1);
    var s3 := Step(known, s2, a2);
    assert s3.stopped;
    assert Scan(known, s3, [a3]) == s3;
    assert Scan(known, s2, [a2, a3]) == s3;
    assert Scan(known, s1, [a1, a2, a3]) == s3;
  }

  // ---------------------------------------------------------------------------------------
  // Resetting the slots

  /** Every slot with its `valid` flag cleared and its other fields kept. */
  function Invalidated(slots: seq<BleData>): seq<BleData>
    decreases |slots|
  {
    if slots == [] then [] else [slots[0].(valid := false)] + Invalidated(slots[1..])
  }

  /** `Invalidated` keeps the length, clears every flag and changes no other field. */
  lemma {:induction false} InvalidatedAt(slots: seq<BleData>)
    ensures |Invalidated(slots)| == |slots|
    ensures forall i :: 0 <= i < |slots| ==> Invalidated(slots)[i] == slots[i].(valid := false)
    decreases |slots|
  {
    if slots != [] {
      InvalidatedAt(slots[1..]);
    }
  }

  /** Resetting twice is the same as resetting once. */
  lemma {:induction false} InvalidatedIdempotent(slots: seq<BleData>)
    ensures Invalidated(Invalidated(slots)) == Invalidated(slots)
    decreases |slots|
  {
    if slots != [] {
      InvalidatedIdempotent(slots[1..]);
    }
  }

  // ---------------------------------------------------------------------------------------
  // Service data as hex text

  /** The lower-case hex digit of a value below 16. */
  function HexDigit(v: int): (c: char)
    requires 0 <= v < 16
    ensures c in "0123456789abcdef"
  {
    if v < 10 then (48 + v) as char else (87 + v) as char
  }

  /** The value of a lower-case hex digit. */
  function HexValue(c: char): (v: int)
    ensures 0 <= v < 16
  {
    if '0' <= c <= '9' then c as int - 48
    else if 'a' <= c <= 'f' then c as int - 87
    else 0
  }

  /** `sprintf("%.2x")` of one byte: two hex digits, high nibble first. */
  function HexPair(b: Byte): (p: seq<char>)
    ensures |p| == 2
  {
    var v := b as int;
    [HexDigit(v / 16), HexDigit(v % 16)]
  }

  /** Both digits of a pair are lower-case hex digits. */
  lemma HexPairDigits(b: Byte)
    ensures HexPair(b)[0] in "0123456789abcdef" && HexPair(b)[1] in "0123456789abcdef"
  {
  }

  /** The values of the two digits give the byte back. */
  lemma HexPairValue(b: Byte)
    ensures 16 * HexValue(HexPair(b)[0]) + HexValue(HexPair(b)[1]) == b as int
  {
  }

  /** The hex text of the service data, two digits per byte. */
  function Hex(bytes: seq<Byte>): seq<char>
    decreases |bytes|
  {
    if bytes == [] then [] else HexPair(bytes[0]) + Hex(bytes[1..])
  }

  /** The text has exactly two characters per byte. */
  lemma {:induction false} HexLength(bytes: seq<Byte>)
    ensures |Hex(bytes)| == 2 * |bytes|
    decreases |bytes|
  {
    if bytes != [] {
      HexLength(bytes[1..]);
    }
  }

  /** The text of the first `i + 1` bytes extends that of the first `i` by byte `i`'s pair. */
  lemma HexSnoc(bytes: seq<Byte>, i: nat, done: string, next: string)
    requires i < |bytes| && done == Hex(bytes[..i])
    requires |next| == 2 * i + 2 && next[..2 * i] == done
    requires next[2 * i] == HexPair(bytes[i])[0] && next[2 * i + 1] == HexPair(bytes[i])[1]
    ensures next == Hex(bytes[..i + 1])
  {
    var p := HexPair(bytes[i]);
    assert Hex(bytes[..i + 1]) == done + p by {
      HexPrefixStep(bytes, i);
    }
    assert next[2 * i..] == p;
    SplitAt(next, 2 * i);
  }

  /** Appending one byte to the data appends its pair to the text. */
  lemma HexPrefixStep(bytes: seq<Byte>, i: nat)
    requires i < |bytes|
    ensures Hex(bytes[..i + 1]) == Hex(bytes[..i]) + HexPair(bytes[i])
  {
    assert bytes[..i + 1] == bytes[..i] + [bytes[i]];
    HexAppend(bytes[..i], [bytes[i]]);
    assert Hex([bytes[i]]) == HexPair(bytes[i]) + Hex([]);
  }

  /** Byte `i` is encoded at positions `2i` and `2i + 1` of the text. */
  lemma HexAt(bytes: seq<Byte>, i: nat)
    requires i < |bytes|
    ensures |Hex(bytes)| == 2 * |bytes|
    ensures Hex(bytes)[2 * i..2 * i + 2] == HexPair(bytes[i])
  {
    HexLength(bytes);
    var pre, rest := bytes[..i], bytes[i..];
    var a, p, c := Hex(pre), HexPair(bytes[i]), Hex(rest[1..]);
    assert Hex(bytes) == a + (p + c) by {
      SplitAt(bytes, i);
      HexAppend(pre, rest);
      assert rest[0] == bytes[i];
    }
    assert |a| == 2 * i by {
      HexLength(pre);
    }
    SliceMiddle(a, p, c);
  }

  /** Every character of the text is a lower-case hex digit. */
  lemma {:induction false} HexLowerCase(bytes: seq<Byte>)
    ensures forall k :: 0 <= k < |Hex(bytes)| ==> Hex(bytes)[k] in "0123456789abcdef"
    decreases |bytes|
  {
    if bytes != [] {
      HexLowerCase(bytes[1..]);
      HexPairDigits(bytes[0]);
      var h := Hex(bytes);
      forall k | 0 <= k < |h| ensures h[k] in "0123456789abcdef" {
        if k >= 2 {
          assert h[k] == Hex(bytes[1..])[k - 2];
        }
      }
    }
  }

  /** The text of a concatenation is the concatenation of the texts. */
  lemma {:induction false} HexAppend(a: seq<Byte>, b: seq<Byte>)
    ensures Hex(a + b) == Hex(a) + Hex(b)
    decreases |a|
  {
    if a == [] {
      assert a + b == b;
    } else {
      assert (a + b)[0] == a[0];
      assert (a + b)[1..] == a[1..] + b;
      HexAppend(a[1..], b);
    }
  }

  /** Reading hex text back, two digits per byte. */
  function Unhex(text: seq<char>): seq<Byte>
    decreases |text|
  {
    if |text| < 2 then []
    else [(16 * HexValue(text[0]) + HexValue(text[1])) as Byte] + Unhex(text[2..])
  }

  /** Reading text that starts with the pair of byte `b` starts with `b`. */
  lemma UnhexPair(b: Byte, rest: seq<char>)
    ensures Unhex(HexPair(b) + rest) == [b] + Unhex(rest)
  {
    var p := HexPair(b);
    var t := p + rest;
    assert t[0] == p[0] && t[1] == p[1] && t[2..] == rest;
    var x := 16 * HexValue(p[0]) + HexValue(p[1]);
    assert x == b by {
      HexPairValue(b);
    }
    assert Unhex(t) == [x as Byte] + Unhex(t[2..]);
  }

  /** The hex text determines the bytes: reading it back gives the service data. */
  lemma {:induction false} UnhexHex(bytes: seq<Byte>)
    ensures Unhex(Hex(bytes)) == bytes
    decreases |bytes|
  {
    if bytes != [] {
      var rest := Hex(bytes[1..]);
      assert Hex(bytes) == HexPair(bytes[0]) + rest;
      UnhexPair(bytes[0], rest);
      UnhexHex(bytes[1..]);
      assert bytes == [bytes[0]] + bytes[1..];
    }
  }
}
