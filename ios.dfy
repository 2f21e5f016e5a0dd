/** The iOS controller's detection pass (Hive::Controller::IOS#detect).

    One pass reads the fleet registry ("Hive Mind") snapshot and the devices
    attached to the host. When the registry reports an error it builds handles
    from the attached devices alone; otherwise it matches the registry's iOS
    records against the attached trusted devices by serial, corrects stale OS
    versions, polls the matched records, and registers the attached devices no
    record claimed. Registry side effects are the calls the pass issues, in
    order; the registry's answers and the device class's construction are
    inputs of the pass. */
module IOS {
  import opened Ruby
  import Controller

  type Handle = Controller.Handle

  /** What happens when a live attribute of an attached device is read:
      it answers, or the device has gone (DeviceNotFound), or another error is raised. */
  datatype Liveness = Present | NotFound | OtherError

  /** A device attached to the host. Its serial and trust status are known from
      enumeration; every other attribute is a live query governed by `liveness`. */
  datatype LocalDevice = LocalDevice(
    serial: string,
    trusted: bool,
    model: string,
    version: string,
    deviceClass: string,
    deviceType: string,
    wifiMac: string,
    imei: string,
    liveness: Liveness)

  predicate Live(d: LocalDevice) { d.liveness == Present }

  /** A fleet registry record, as the hash the registry client returns. */
  type Record = Attributes

  /** The registry's `device_details`: whether it carries an `:error` key, and
      its `connected_devices` entry when that is a list of records. */
  datatype DeviceDetails = DeviceDetails(hasError: bool, connectedDevices: Option<seq<Record>>)

  /** A call the pass makes on the registry client. `Update` is `register`
      called with a record id, which corrects that record's OS fields. */
  datatype Call =
    | Update(id: Value, osName: string, osVersion: string)
    | Register(hostname: string, serial: string, macs: seq<string>, brand: string,
               model: string, deviceType: string, pluginType: string, imei: string,
               osName: string, osVersion: string)
    | Poll(ids: seq<Value>)
    | Connect(id: Value)

  /** The registry's answer to a `register` call: the record's id, or an exception. */
  datatype Reply = Accepted(id: Value) | Raised

  /** The outcome of a pass: the registry calls made and the handles returned;
      `nil` (the fallback lost its list); or DeviceDetectionFailed raised. */
  datatype Detection =
    | Found(calls: seq<Call>, handles: seq<Handle>)
    | NoList
    | DetectionFailed

  /** What a pass depends on besides the devices and the snapshot: the
      controller's configuration, the registry's answers to `register`, and
      whether the device class accepts a set of attributes. */
  datatype Env = Env(config: Attributes, respond: Call -> Reply, accepts: Attributes -> bool)

  // ---------------------------------------------------------------------------
  // Helpers of the pass: filters over the two collections

  /** get_connected_devices: the attached devices that are trusted, in order. */
  function ConnectedDevices(devices: seq<LocalDevice>): seq<LocalDevice>
  {
    if devices == [] then []
    else (if devices[0].trusted then [devices[0]] else []) + ConnectedDevices(devices[1..])
  }

  function OsName(rec: Record): Value { Get(rec, "operating_system_name") }

  /** `operating_system_name.casecmp('ios').zero?` */
  predicate IsIOSRecord(rec: Record)
    requires OsName(rec).Str?
  {
    CaseEqual(OsName(rec).s, "ios")
  }

  /** The iOS records in order; None when some record's OS name is not a
      string (calling `casecmp` on it raises NoMethodError). */
  function SelectIOS(recs: seq<Record>): Option<seq<Record>>
  {
    if recs == [] then Some([])
    else if !OsName(recs[0]).Str? then None
    else match SelectIOS(recs[1..])
      case None => None
      case Some(rest) => Some((if IsIOSRecord(recs[0]) then [recs[0]] else []) + rest)
  }

  /** get_hivemind_devices: the snapshot's iOS records, or None where the
      source raises DeviceDetectionFailed. */
  function HiveMindDevices(details: DeviceDetails): Option<seq<Record>>
  {
    match details.connectedDevices
    case None => None
    case Some(recs) => SelectIOS(recs)
  }

  /** `connected_devices.select { |a| a.serial == device['serial'] && a.trusted? }` */
  function Matching(pool: seq<LocalDevice>, serial: Value): seq<LocalDevice>
  {
    if pool == [] then []
    else
      (if pool[0].trusted && Str(pool[0].serial) == serial then [pool[0]] else [])
      + Matching(pool[1..], serial)
  }

  /** Array#-: the elements of `a` that are not in `b`, in order. */
  function Minus(a: seq<LocalDevice>, b: seq<LocalDevice>): seq<LocalDevice>
  {
    if a == [] then [] else (if a[0] in b then [] else [a[0]]) + Minus(a[1..], b)
  }

  // ---------------------------------------------------------------------------
  // The registry path, one record at a time

  /** The options a matched record's handle is built from: the record with the
      device's current OS version and device class. */
  function MatchedOptions(rec: Record, d: LocalDevice): Attributes
  {
    rec + map["os_version" := Str(d.version), "device_range" := Str(d.deviceClass)]
  }

  predicate NeedsUpdate(rec: Record, d: LocalDevice)
  {
    Get(rec, "operating_system_version") != Str(d.version)
  }

  function UpdateRequest(rec: Record, d: LocalDevice): Call
  {
    Update(Get(rec, "id"), "ios", d.version)
  }

  /** What one matched record adds to the pass. */
  datatype Contribution = Contribution(calls: seq<Call>, handles: seq<Handle>, toPoll: seq<Value>)

  /** The begin/rescue block for a record `rec` matched with device `d`: an
      OS-version update when the versions differ, then the handle and the id to
      poll; an error at any step drops the record and nothing after it. */
  function Contribute(env: Env, rec: Record, d: LocalDevice): (c: Contribution)
    ensures |c.calls| <= 1
    ensures c.calls != [] <==> Live(d) && NeedsUpdate(rec, d)
    ensures c.calls != [] ==> c.calls[0] == UpdateRequest(rec, d)
    ensures |c.handles| == |c.toPoll| <= 1
    ensures c.handles != [] <==>
      && Live(d)
      && (NeedsUpdate(rec, d) ==> env.respond(UpdateRequest(rec, d)).Accepted?)
      && env.accepts(Controller.Merge(env.config, MatchedOptions(rec, d)))
    ensures c.handles != [] ==>
      && c.handles[0] == Controller.Handle(Controller.Merge(env.config, MatchedOptions(rec, d)))
      && c.toPoll[0] == Get(rec, "id")
  {
    if !Live(d) then Contribution([], [], [])
    else
      var updates := if NeedsUpdate(rec, d) then [UpdateRequest(rec, d)] else [];
      if updates != [] && env.respond(updates[0]).Raised? then Contribution(updates, [], [])
      else match Controller.CreateDevice(env.config, MatchedOptions(rec, d), env.accepts)
        case None => Contribution(updates, [], [])
        case Some(h) => Contribution(updates, [h], [Get(rec, "id")])
  }

  /** The state the record loop carries: calls so far, `attached_devices`,
      `to_poll`, and the attached devices not yet claimed (`connected_devices`). */
  datatype MatchState = MatchState(calls: seq<Call>, handles: seq<Handle>, toPoll: seq<Value>, pool: seq<LocalDevice>)

  /** One iteration of the record loop. */
  function Step(env: Env, st: MatchState, rec: Record): MatchState
  {
    var claim := Matching(st.pool, Get(rec, "serial"));
    if claim == [] then st
    else
      var c := Contribute(env, rec, claim[0]);
      MatchState(st.calls + c.calls, st.handles + c.handles, st.toPoll + c.toPoll, Minus(st.pool, claim))
  }

  /** The record loop over `recs`, starting from the attached trusted devices `pool`. */
  function MatchAll(env: Env, recs: seq<Record>, pool: seq<LocalDevice>): MatchState
    decreases |recs|
  {
    if recs == [] then MatchState([], [], [], pool)
    else Step(env, MatchAll(env, recs[..|recs| - 1], pool), recs[|recs| - 1])
  }

  /** The registration payload for an attached device no record claimed. */
  function RegisterRequest(d: LocalDevice): Call
  {
    Register(d.model, d.serial, [d.wifiMac], "Apple", d.model, Capitalize(d.deviceType),
             "Mobile", d.imei, "ios", d.version)
  }

  /** Registering one device: nothing if reading its attributes raises; the
      `register` call; then `connect` with the id the registry assigned. */
  function RegisterOne(env: Env, d: LocalDevice): (r: seq<Call>)
    ensures r == [] <==> !Live(d)
    ensures r != [] ==> r[0] == RegisterRequest(d)
  {
    if !Live(d) then []
    else match env.respond(RegisterRequest(d))
      case Accepted(id) => [RegisterRequest(d), Connect(id)]
      case Raised => [RegisterRequest(d)]
  }

  /** The registration loop over `devices`. */
  function RegisterAll(env: Env, devices: seq<LocalDevice>): seq<Call>
    decreases |devices|
  {
    if devices == [] then []
    else RegisterAll(env, devices[..|devices| - 1]) + RegisterOne(env, devices[|devices| - 1])
  }

  /** detect_with_hivemind, as a function of its inputs. */
  function WithHiveMind(env: Env, devices: seq<LocalDevice>, details: DeviceDetails): Detection
  {
    match HiveMindDevices(details)
    case None => DetectionFailed
    case Some(recs) =>
      var m := MatchAll(env, recs, ConnectedDevices(devices));
      Found(m.calls + [Poll(m.toPoll)] + RegisterAll(env, ConnectedDevices(m.pool)), m.handles)
  }

  // ---------------------------------------------------------------------------
  // The fallback path

  /** The attributes the fallback builds a handle from. */
  function FallbackInfo(config: Attributes, d: LocalDevice): Attributes
  {
    map[
      "id" := Str(d.serial),
      "serial" := Str(d.serial),
      "status" := Str("idle"),
      "brand" := Str("Apple"),
      "model" := Str(d.model),
      "os_version" := Str(d.version),
      "device_range" := Str(d.deviceClass),
      "queue_prefix" := Get(config, "queue_prefix")
    ]
  }

  /** `select(&:trusted?).map { ... }`: None as soon as one device's attributes cannot be read. */
  function DeviceInfos(config: Attributes, devices: seq<LocalDevice>): (r: Option<seq<Attributes>>)
    ensures r.Some? <==> forall d :: d in devices ==> Live(d)
    ensures r.Some? ==> |r.value| == |devices|
    ensures r.Some? ==> forall k :: 0 <= k < |devices| ==> r.value[k] == FallbackInfo(config, devices[k])
  {
    if devices == [] then Some([])
    else if !Live(devices[0]) then None
    else match DeviceInfos(config, devices[1..])
      case None => None
      case Some(rest) => Some([FallbackInfo(config, devices[0])] + rest)
  }

  /** `device_info.collect { create_device(...) }`: None as soon as one construction raises. */
  function CreateAll(env: Env, infos: seq<Attributes>): (r: Option<seq<Handle>>)
    ensures r.Some? <==> forall k :: 0 <= k < |infos| ==> env.accepts(Controller.Merge(env.config, infos[k]))
    ensures r.Some? ==> |r.value| == |infos|
    ensures r.Some? ==> forall k :: 0 <= k < |infos| ==> r.value[k] == Controller.Handle(Controller.Merge(env.config, infos[k]))
  {
    if infos == [] then Some([])
    else match Controller.CreateDevice(env.config, infos[0], env.accepts)
      case None => None
      case Some(h) =>
        match CreateAll(env, infos[1..])
        case None => None
        case Some(rest) => Some([h] + rest)
  }

  /** detect_without_hivemind: handles for the trusted devices, or `nil`. */
  function WithoutHiveMind(env: Env, devices: seq<LocalDevice>): Detection
  {
    match DeviceInfos(env.config, ConnectedDevices(ConnectedDevices(devices)))
    case None => NoList
    case Some(infos) =>
      match CreateAll(env, infos)
      case None => NoList
      case Some(handles) => Found([], handles)
  }

  /** detect, as a function of its inputs. */
  function DetectSpec(env: Env, devices: seq<LocalDevice>, details: DeviceDetails): Detection
  {
    if details.hasError then WithoutHiveMind(env, devices) else WithHiveMind(env, devices, details)
  }

  // ---------------------------------------------------------------------------
  // The pass

  /** The begin/rescue block for a registry record `device` matched with the
      attached device `d`: an exception at any step skips the rest of the block. */
  method VisitMatched(env: Env, device: Record, d: LocalDevice) returns (c: Contribution)
    ensures c == Contribute(env, device, d)
  {
    c := Contribution([], [], []);
    if d.liveness != Present {
      return;  // reading the device's version raises
    }
    if Get(device, "operating_system_version") != Str(d.version) {
      var request := Update(Get(device, "id"), "ios", d.version);
      c := c.(calls := [request]);
      if env.respond(request).Raised? {
        return;
      }
    }
    var options := device + map["os_version" := Str(d.version), "device_range" := Str(d.deviceClass)];
    var created := Controller.CreateDevice(env.config, options, env.accepts);
    if created.Some? {
      c := c.(handles := [created.value], toPoll := [Get(device, "id")]);
    }
  }

  /** The inner begin/rescue block of the registration loop for one device. */
  method RegisterDevice(env: Env, d: LocalDevice) returns (calls: seq<Call>)
    ensures calls == RegisterOne(env, d)
  {
    calls := [];
    if d.liveness != Present {
      return;  // reading the device's attributes raises
    }
    var request := Register(d.model, d.serial, [d.wifiMac], "Apple", d.model,
                            Capitalize(d.deviceType), "Mobile", d.imei, "ios", d.version);
    calls := [request];
    var reply := env.respond(request);
    if reply.Accepted? {
      calls := calls + [Connect(reply.id)];
    }
  }

  /** The record loop of detect_with_hivemind: `to_poll` and `attached_devices`
      grow, and each matched record's devices leave `connected_devices`. */
  method MatchRecords(env: Env, records: seq<Record>, connectedDevices: seq<LocalDevice>)
    returns (calls: seq<Call>, attached: seq<Handle>, toPoll: seq<Value>, connected: seq<LocalDevice>)
    ensures MatchState(calls, attached, toPoll, connected) == MatchAll(env, records, connectedDevices)
  {
    calls, attached, toPoll, connected := [], [], [], connectedDevices;
    var i := 0;
    while i < |records|
      invariant 0 <= i <= |records|
      invariant MatchState(calls, attached, toPoll, connected) == MatchAll(env, records[..i], connectedDevices)
    {
      var device := records[i];
      var registered := Matching(connected, Get(device, "serial"));
      if registered != [] {
        var c := VisitMatched(env, device, registered[0]);
        calls := calls + c.calls;
        attached := attached + c.handles;
        toPoll := toPoll + c.toPoll;
        connected := Minus(connected, registered);
      }
      assert records[..i + 1][..i] == records[..i];
      i := i + 1;
    }
    assert records[..i] == records;
  }

  /** The registration loop of detect_with_hivemind over the devices no record claimed. */
  method RegisterRemaining(env: Env, connected: seq<LocalDevice>) returns (calls: seq<Call>)
    ensures calls == RegisterAll(env, ConnectedDevices(connected))
  {
    calls := [];
    if connected == [] {
      return;
    }
    var unclaimed := ConnectedDevices(connected);
    var j := 0;
    while j < |unclaimed|
      invariant 0 <= j <= |unclaimed|
      invariant calls == RegisterAll(env, unclaimed[..j])
    {
      var more := RegisterDevice(env, unclaimed[j]);
      calls := calls + more;
      assert unclaimed[..j + 1][..j] == unclaimed[..j];
      assert RegisterAll(env, unclaimed[..j + 1]) == RegisterAll(env, unclaimed[..j]) + RegisterOne(env, unclaimed[j]);
      j := j + 1;
    }
    assert unclaimed[..j] == unclaimed;
  }

  method DetectWithHiveMind(env: Env, devices: seq<LocalDevice>, details: DeviceDetails) returns (r: Detection)
    ensures r == WithHiveMind(env, devices, details)
  {
    var connected := ConnectedDevices(devices);
    var listed := HiveMindDevices(details);
    if listed.None? {
      return DetectionFailed;
    }
    var calls, attached, toPoll, unclaimed := MatchRecords(env, listed.value, connected);
    calls := calls + [Poll(toPoll)];
    var registrations := RegisterRemaining(env, unclaimed);
    r := Found(calls + registrations, attached);
  }

  method Detect(env: Env, devices: seq<LocalDevice>, details: DeviceDetails) returns (r: Detection)
    ensures r == DetectSpec(env, devices, details)
  {
    if details.hasError {
      r := WithoutHiveMind(env, devices);
    } else {
      r := DetectWithHiveMind(env, devices, details);
    }
  }
}
