/**
 * The two checks of the mini-mwan configuration form: no two interface
 * sections may use the same device, and no two may ping the same target.
 * The configuration store is replaced by the values it would answer with:
 * the `device` option of every interface section in section order, and the
 * interface sections themselves with their names and ping targets.
 */
module ConfigValidate {
  import opened JsText

  /** The answer of a form check: accepted, or rejected naming the offending value. */
  datatype Check = Accept | Reject(subject: string)

  /** A device option that is set to a non-empty string; unset and empty ones are ignored. */
  predicate Present(d: Option<string>) {
    d.Some? && Truthy(d.value)
  }

  /** The device at `j` is set and equals the device of an earlier section. */
  predicate RepeatsEarlier(devices: seq<Option<string>>, j: int)
    requires 0 <= j < |devices|
  {
    Present(devices[j]) && exists i :: 0 <= i < j && devices[i] == devices[j]
  }

  /** No set device occurs twice. */
  predicate AllDistinct(devices: seq<Option<string>>) {
    forall i, j :: 0 <= i < j < |devices| && Present(devices[j]) ==> devices[i] != devices[j]
  }

  /** The set devices among the first `n` sections. */
  function SeenDevices(devices: seq<Option<string>>, n: nat): set<string>
    requires n <= |devices|
  {
    set k | 0 <= k < n && Present(devices[k]) :: devices[k].value
  }

  /**
   * The duplicate-device check of the interface sections: it walks the
   * devices in section order, remembering the set ones, and stops at the
   * first device already remembered.  It accepts exactly when no set device
   * occurs twice, and otherwise reports the first section, in order, whose
   * device appeared earlier.
   */
  method CheckDevices(devices: seq<Option<string>>) returns (r: Check)
    ensures r == Accept <==> AllDistinct(devices)
    ensures r.Reject? ==>
              exists j :: 0 <= j < |devices| && devices[j] == Some(r.subject) && RepeatsEarlier(devices, j)
                          && forall k :: 0 <= k < j ==> !RepeatsEarlier(devices, k)
  {
    var seen: set<string> := {};
    for i := 0 to |devices|
      invariant seen == SeenDevices(devices, i)
      invariant forall k :: 0 <= k < i ==> !RepeatsEarlier(devices, k)
    {
      var d := devices[i];
      if Present(d) && d.value in seen {
        var k :| 0 <= k < i && Present(devices[k]) && devices[k].value == d.value;
        assert devices[k] == d;
        assert RepeatsEarlier(devices, i);
        return Reject(d.value);
      }
      if Present(d) {
        seen := seen + {d.value};
      }
      assert SeenDevices(devices, i + 1) == SeenDevices(devices, i) + (if Present(d) then {d.value} else {});
    }
    assert AllDistinct(devices) by {
      forall i, j | 0 <= i < j < |devices| && Present(devices[j])
        ensures devices[i] != devices[j]
      {
        assert !RepeatsEarlier(devices, j);
      }
    }
    return Accept;
  }

  /**
   * Unset and empty devices never matter: dropping one from the sequence
   * leaves the verdict of `AllDistinct` unchanged.
   */
  lemma AbsentDevicesIgnored(before: seq<Option<string>>, d: Option<string>, after: seq<Option<string>>)
    requires !Present(d)
    ensures AllDistinct(before + [d] + after) <==> AllDistinct(before + after)
  {
    var whole := before + [d] + after;
    var rest := before + after;
    if AllDistinct(rest) {
      forall i, j | 0 <= i < j < |whole| && Present(whole[j])
        ensures whole[i] != whole[j]
      {
        if j < |before| {
          assert whole[i] == rest[i] && whole[j] == rest[j];
        } else if j > |before| {
          assert whole[j] == rest[j - 1];
          if i < |before| {
            assert whole[i] == rest[i];
          } else if i > |before| {
            assert whole[i] == rest[i - 1];
          }
        }
      }
    }
    if AllDistinct(whole) {
      forall i, j | 0 <= i < j < |rest| && Present(rest[j])
        ensures rest[i] != rest[j]
      {
        var wi := if i < |before| then i else i + 1;
        var wj := if j < |before| then j else j + 1;
        assert whole[wi] == rest[i] && whole[wj] == rest[j];
      }
    }
  }

  /**
   * The check as written: the remembered devices are the keys of a plain
   * object, so a lookup of a name every object inherits (`toString`,
   * `constructor`, ...) finds that member, which is truthy, even on the
   * name's first occurrence.
   */
  function ScanDevicesAsWritten(devices: seq<Option<string>>, seen: set<string>): Check {
    if devices == [] then Accept
    else
      var d := devices[0];
      if Present(d) && (d.value in seen || d.value in ObjectPrototypeKeys) then Reject(d.value)
      else ScanDevicesAsWritten(devices[1..], if Present(d) then seen + {d.value} else seen)
  }

  /** A single section whose device is `toString` is rejected as written, though no device repeats. */
  lemma InheritedDeviceNameRejected()
    ensures AllDistinct([Some("toString")])
    ensures ScanDevicesAsWritten([Some("toString")], {}) == Reject("toString")
  {
  }

  /**
   * The check as written is too strict but never too lenient: every real
   * duplicate, or a device already remembered, is still rejected.
   */
  lemma {:induction false} AsWrittenRejectsDuplicates(devices: seq<Option<string>>, seen: set<string>)
    requires !AllDistinct(devices) || exists j :: 0 <= j < |devices| && Present(devices[j]) && devices[j].value in seen
    ensures ScanDevicesAsWritten(devices, seen).Reject?
  {
    var d := devices[0];
    if !(Present(d) && (d.value in seen || d.value in ObjectPrototypeKeys)) {
      var tail := devices[1..];
      var seen' := if Present(d) then seen + {d.value} else seen;
      assert !AllDistinct(tail) || exists j :: 0 <= j < |tail| && Present(tail[j]) && tail[j].value in seen' by {
        if !AllDistinct(devices) {
          var i, j :| 0 <= i < j < |devices| && Present(devices[j]) && devices[i] == devices[j];
          if i == 0 {
            assert Present(tail[j - 1]) && tail[j - 1].value in seen';
          } else {
            assert tail[i - 1] == tail[j - 1];
          }
        } else {
          var j :| 0 <= j < |devices| && Present(devices[j]) && devices[j].value in seen;
          assert j != 0;
          assert tail[j - 1] == devices[j];
        }
      }
      AsWrittenRejectsDuplicates(tail, seen');
    }
  }

  /** An interface section as the ping-target check sees it: its name and its stored target, if any. */
  datatype Section = Section(name: string, pingTarget: Option<string>)

  /** Some section other than `sectionId` stores exactly `value` as its ping target. */
  predicate TargetTakenElsewhere(sectionId: string, value: string, sections: seq<Section>) {
    exists i :: 0 <= i < |sections| && sections[i].name != sectionId && sections[i].pingTarget == Some(value)
  }

  /**
   * The ping-target check of section `sectionId`: an unset or empty value is
   * always accepted; otherwise the value is rejected exactly when another
   * section already stores the same target.
   */
  method CheckPingTarget(sectionId: string, value: Option<string>, sections: seq<Section>) returns (r: Check)
    ensures !Present(value) ==> r == Accept
    ensures Present(value) ==>
              r == (if TargetTakenElsewhere(sectionId, value.value, sections) then Reject(value.value) else Accept)
  {
    if !Present(value) {
      return Accept;
    }
    for i := 0 to |sections|
      invariant forall k :: 0 <= k < i ==> !(sections[k].name != sectionId && sections[k].pingTarget == value)
    {
      if sections[i].name != sectionId && sections[i].pingTarget == value {
        return Reject(value.value);
      }
    }
    return Accept;
  }

  /** The section's own stored target never counts against it, wherever it sits. */
  lemma OwnTargetIgnored(sectionId: string, value: string, before: seq<Section>, own: Option<string>, after: seq<Section>)
    ensures TargetTakenElsewhere(sectionId, value, before + [Section(sectionId, own)] + after)
            <==> TargetTakenElsewhere(sectionId, value, before + after)
  {
    var whole := before + [Section(sectionId, own)] + after;
    var rest := before + after;
    if TargetTakenElsewhere(sectionId, value, whole) {
      var i :| 0 <= i < |whole| && whole[i].name != sectionId && whole[i].pingTarget == Some(value);
      var k := if i < |before| then i else i - 1;
      assert rest[k] == whole[i];
    }
    if TargetTakenElsewhere(sectionId, value, rest) {
      var k :| 0 <= k < |rest| && rest[k].name != sectionId && rest[k].pingTarget == Some(value);
      var i := if k < |before| then k else k + 1;
      assert whole[i] == rest[k];
    }
  }

  /**
   * Two sections may not keep the same target: if both store a non-empty
   * target under different names, the check rejects it for either one.
   */
  lemma SharedTargetRejectedForBoth(sections: seq<Section>, i: int, j: int, value: string)
    requires 0 <= i < |sections| && 0 <= j < |sections|
    requires sections[i].name != sections[j].name
    requires sections[i].pingTarget == Some(value) && sections[j].pingTarget == Some(value)
    ensures TargetTakenElsewhere(sections[i].name, value, sections)
    ensures TargetTakenElsewhere(sections[j].name, value, sections)
  {
  }
}
