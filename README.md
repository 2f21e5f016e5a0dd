# hive-runner iOS device reconciliation, modelled in Dafny

This project models the part of hive-runner that reconciles the test devices
attached to a host with the records of the fleet registry (Hive Mind), plus the
two small pieces around it:

- **The iOS controller's detection pass** (`Hive::Controller::IOS#detect`). The
  pass reads the registry's `device_details` snapshot and the attached devices.
  - When the snapshot carries an `:error` key, it builds handles from the
    attached trusted devices alone (the fallback).
  - Otherwise it keeps the registry's iOS records and matches each one by serial
    against the attached trusted devices not yet claimed. For a matched record it:
    - corrects a stale OS version with `register(id: …)`;
    - builds a handle and collects the id to poll.
  - It then calls `poll` once.
  - Finally it registers and connects every attached trusted device that no
    record claimed.
- **The generic controller** (`Hive::Controller`). It derives the device class
  name and its require path from the controller's class name, defaults
  `port_range_size`, and builds a device from the configuration merged with
  extra options.
- **The diagnostic template** (`Hive::Diagnostic`). `run` diagnoses when
  `should_run?`, repairs a failed diagnosis, and records the result in
  `last_run`. `pass` and `fail` build results.

Files:

- `ruby.dfy` (module `Ruby`) holds the Ruby values the code passes around: hashes with string keys, strings, and nil. It also holds the ASCII `downcase`, `capitalize` and `casecmp`.
- `controller.dfy` (module `Controller`) holds the base controller.
- `ios.dfy` (module `IOS`) holds the pass. The registry's side effects are the sequence of calls it makes (`Update`, `Poll`, `Register`, `Connect`). The pass depends on:
  - what the registry answers to `register`, an input function `respond`;
  - whether the device class accepts a set of attributes, an input function `accepts`.

  The loops of `detect_with_hivemind` are methods (`MatchRecords`, `RegisterRemaining`). They are proved equal to folds over the records and the devices (`MatchAll`, `RegisterAll`). `Detect` is proved equal to `DetectSpec`.
- `ios_properties.dfy` (module `IOSProperties`) proves what the pass promises about those folds. It uses an independent record-by-record reference (`PerRecord`), in which no pool shrinks, and proves the loop equal to it.
- `diagnostic.dfy` (module `Diagnostic`) holds the diagnostic template. The class `Diagnostic` has the fields the Ruby object keeps, and `Run` updates `lastRun` in place.

## Model

| member | source | states |
|---|---|---|
| Ruby.Downcase | lib/hive/controller.rb:19 | `downcase` keeps the length, lowers every ASCII letter and leaves no upper-case letter |
| Ruby.Capitalize | lib/hive/controller/ios.rb:85 | `capitalize` upper-cases the first character and lowers the rest, keeping the length |
| Controller.SubReplacesFirst | lib/hive/controller.rb:18 | `sub` with a literal pattern replaces its first occurrence and keeps the text before and after it |
| Controller.SubWithoutOccurrence | lib/hive/controller.rb:18 | `sub` leaves a string without an occurrence unchanged |
| Controller.DeviceClassName | lib/hive/controller.rb:18 | for any name `prefix + "Controller" + suffix` where that occurrence is the first, the device class is `prefix + "Device" + suffix` |
| Controller.IOSDeviceClass | lib/hive/controller.rb:18 | Hive::Controller::IOS gets the device class Hive::Device::IOS |
| Controller.ReplaceColonsPlain | lib/hive/controller.rb:19 | `gsub(/::/, '/')` leaves a string without a colon unchanged |
| Controller.ReplaceColonsFirst | lib/hive/controller.rb:19 | in `a + "::" + b` with no colon in `a`, the "::" becomes "/", `a` is kept and the replacement goes on in `b` |
| Controller.RequirePathPlain | lib/hive/controller.rb:19 | the require path of a name without a colon is the name lower-cased |
| Controller.RequirePathSegments | lib/hive/controller.rb:19 | the require path of `a::b`, with no colon in `a`, is `a` lower-cased, then "/", then the require path of `b` |
| Controller.IOSRequirePath | lib/hive/controller.rb:19 | Hive::Device::IOS is loaded from hive/device/ios |
| Controller.ReplaceColonsComplete | lib/hive/controller.rb:19 | replacing "::" by "/" leaves no "::" and introduces no upper-case letter |
| Controller.RequirePathShape | lib/hive/controller.rb:19 | the require path holds no "::" and no upper-case ASCII letter |
| Controller.PortRangeSize | lib/hive/controller.rb:21 | `port_range_size` is the configured entry whenever the key is present, whatever its value, and 0 when it is absent |
| Controller.Merge | lib/hive/controller.rb:27 | the merged hash has the keys of both hashes, the extra value wins on a shared key, a config-only key keeps its value, and an empty extra gives the config |
| Controller.CreateDevice | lib/hive/controller.rb:24-28 | a device is built exactly when the device class accepts the merged attributes, and then from exactly those attributes |
| Controller.CreateDeviceNoExtras | lib/hive/controller.rb:24-27 | without extra options the device is built from exactly the stored configuration |
| Controller.Controller.constructor | lib/hive/controller.rb:16-22 | a new controller stores its config (`{}` by default), derives its device class and require path, and defaults its port range size |
| Controller.Controller.Detect | lib/hive/controller.rb:30-32 | the generic `detect` always fails with NotImplementedError, naming the controller class |
| IOS.Contribute | lib/hive/controller/ios.rb:42-64 | a matched record gets an OS update exactly when its device answers and the versions differ. It yields one handle and its id exactly when the device answers, the update (if any) is accepted and the device class accepts the attributes |
| IOS.RegisterOne | lib/hive/controller/ios.rb:78-97 | a device whose attributes cannot be read issues no call; otherwise the first call is its `register` payload |
| IOS.DeviceInfos | lib/hive/controller/ios.rb:116-127 | the fallback's attribute list exists exactly when every trusted device answers, and then holds one entry per device, in order |
| IOS.CreateAll | lib/hive/controller/ios.rb:128-130 | the fallback's handle list exists exactly when every construction succeeds, and then holds one handle per entry, in order |
| IOS.VisitMatched | lib/hive/controller/ios.rb:42-64 | the begin/rescue block for a matched record computes what `Contribute` specifies |
| IOS.RegisterDevice | lib/hive/controller/ios.rb:78-97 | the inner begin/rescue block of registration computes what `RegisterOne` specifies |
| IOS.MatchRecords | lib/hive/controller/ios.rb:27-68 | the record loop leaves the calls, `attached_devices`, `to_poll` and `connected_devices` that the fold `MatchAll` gives |
| IOS.RegisterRemaining | lib/hive/controller/ios.rb:75-103 | the registration loop issues the calls the fold `RegisterAll` gives over the unclaimed trusted devices |
| IOS.DetectWithHiveMind | lib/hive/controller/ios.rb:18-106 | the registry path returns what `WithHiveMind` specifies |
| IOS.Detect | lib/hive/controller/ios.rb:10-16 | `detect` returns what `DetectSpec` specifies |
| IOSProperties.ConnectedDevicesMembers | lib/hive/controller/ios.rb:141-144 | the connected devices are exactly the attached trusted devices |
| IOSProperties.ConnectedDevicesIdempotent | lib/hive/controller/ios.rb:141-144 | selecting the trusted devices twice changes nothing |
| IOSProperties.SelectIOSSpec | lib/hive/controller/ios.rb:147-149 | the selection succeeds exactly when every OS name is a string, and then keeps exactly the records named "ios" up to ASCII case |
| IOSProperties.SelectIOSAppend | lib/hive/controller/ios.rb:147-149 | the selection keeps snapshot order and duplicates: selecting from `a + b` succeeds exactly when it succeeds on both parts, and gives the selection of `a` followed by that of `b` |
| IOSProperties.SelectIOSOne | lib/hive/controller/ios.rb:147-149 | a single record is kept exactly when its OS name is "ios" up to ASCII case |
| IOSProperties.HiveMindDevicesSpec | lib/hive/controller/ios.rb:146-153 | DeviceDetectionFailed exactly when `connected_devices` is missing or some OS name is not a string; otherwise exactly the iOS records |
| IOSProperties.IOSNames | lib/hive/controller/ios.rb:148 | "IOS", "iOS" and "ios" are iOS names; "android" and "ipados" are not |
| IOSProperties.MatchingMembers | lib/hive/controller/ios.rb:30 | a record selects exactly the trusted devices carrying its serial |
| IOSProperties.MinusMatching | lib/hive/controller/ios.rb:66 | removing the selected devices removes exactly the trusted devices with that serial |
| IOSProperties.ClaimStep | lib/hive/controller/ios.rb:30-66 | a record finds no device when an earlier record had its serial, and otherwise the devices of the full pool. Removing them leaves the devices whose serial no record so far carries |
| IOSProperties.MatchAllIsPerRecord | lib/hive/controller/ios.rb:27-68 | the record loop equals the record-by-record reference. Each record works with the first trusted device with its serial unless an earlier record had that serial. The devices left are those whose serial no record carries |
| IOSProperties.StepIsPerRecord | lib/hive/controller/ios.rb:29-67 | one iteration of the record loop extends the reference by one record |
| IOSProperties.ClaimedOnce | lib/hive/controller/ios.rb:30-66 | two matched records work with devices of different serials: a device is claimed at most once |
| IOSProperties.RecordLoopShape | lib/hive/controller/ios.rb:42-66 | the record loop makes only OS updates to "ios"; each handle is paired with its polled id; no two handles share a serial; each carries a record's and a trusted device's serial |
| IOSProperties.RegisterAllSpec | lib/hive/controller/ios.rb:77-97 | registration issues only `register`/`connect`. Each `register` is the payload of an answering device, and every answering device is registered |
| IOSProperties.RegisterAllConnects | lib/hive/controller/ios.rb:79-91 | an accepted `register` is followed at once by `connect` with the assigned id, and every `connect` follows one |
| IOSProperties.PollExactlyOnce | lib/hive/controller/ios.rb:70-72 | the registry path polls exactly once, after all updates and before all registrations, with one id per returned handle, even with no ids |
| IOSProperties.RegistrationPart | lib/hive/controller/ios.rb:66-103 | the calls are the loop's updates, the poll, then registration of the devices no record claimed |
| IOSProperties.RegistersOnlyUnclaimed | lib/hive/controller/ios.rb:75-103 | every `register` is for a trusted answering device whose serial no iOS record carries |
| IOSProperties.RegistersEveryUnclaimed | lib/hive/controller/ios.rb:75-103 | every trusted answering device no record claims is registered, whatever happens to the others |
| IOSProperties.ConnectsAfterRegistration | lib/hive/controller/ios.rb:79-91 | in the whole pass, each accepted `register` is followed at once by its `connect` |
| IOSProperties.ReturnedHandles | lib/hive/controller/ios.rb:53-105 | the returned handles have distinct serials of trusted attached devices, and no registered device is among them |
| IOSProperties.VersionUpdates | lib/hive/controller/ios.rb:45-52 | an OS update is issued for a record exactly when it is matched, its device answers and the versions differ; it carries the record's id, "ios" and the device's version |
| IOSProperties.HandlesPerRecord | lib/hive/controller/ios.rb:42-64 | a record yields a handle exactly when it is matched, its device answers, its update (if any) is accepted and the device class accepts it; other records do not matter |
| IOSProperties.FallbackFields | lib/hive/controller/ios.rb:116-127 | a fallback handle carries the serial as id and serial, status "idle" and brand "Apple" |
| IOSProperties.FallbackOnTrusted | lib/hive/controller/ios.rb:115-135 | the fallback lists handles exactly when every trusted device answers and every construction succeeds: one per device, in order, with no registry call |
| IOSProperties.FallbackResult | lib/hive/controller/ios.rb:108-139 | the fallback makes no registry call; one unreadable trusted device leaves no list at all |
| IOSProperties.Dispatch | lib/hive/controller/ios.rb:10-16 | the fallback runs exactly when the snapshot carries an error; otherwise DeviceDetectionFailed only for a malformed snapshot, or exactly one poll |
| IOSProperties.UnknownDeviceNotReturned | lib/hive/controller/ios.rb:72-105 | an attached device no record knows is registered and connected but not returned, and the poll has no ids |
| IOSProperties.MissingDevicePollsNothing | lib/hive/controller/ios.rb:35-72 | a record whose device is absent yields nothing, and `poll` is still called with no ids |
| IOSProperties.UntrustedIgnored | lib/hive/controller/ios.rb:141-144 | removing the untrusted devices does not change the outcome of a pass |
| Diagnostic.Pass | lib/hive/diagnostic.rb:28-32 | `pass` builds a result with status "pass" and the given message and data |
| Diagnostic.Fail | lib/hive/diagnostic.rb:34-38 | `fail` builds a result with status "fail" and the given message and data |
| Diagnostic.PassFailDistinct | lib/hive/diagnostic.rb:28-38 | a pass is never a fail, and each is determined by its message and data |
| Diagnostic.ShouldRun | lib/hive/diagnostic.rb:14-16 | `should_run?` is true unless a diagnostic overrides it |
| Diagnostic.RunCallsShape | lib/hive/diagnostic.rb:20-24 | `diagnose` is called once and first. `repair` is called at most once, exactly when the diagnosis failed, and with the diagnosis |
| Diagnostic.OutcomeFollowsCalls | lib/hive/diagnostic.rb:21-23 | the recorded result is the repair of the diagnosis when repair was called, the diagnosis otherwise |
| Diagnostic.AfterRun | lib/hive/diagnostic.rb:20-25 | an enabled run records its outcome; a disabled run leaves `last_run` as it was |
| Diagnostic.Diagnostic.constructor | lib/hive/diagnostic.rb:8-12 | a new diagnostic stores its config and serial, has not run, and its device is nil |
| Diagnostic.Diagnostic.Run | lib/hive/diagnostic.rb:18-26 | `run` updates `last_run` as `AfterRun` says, returns it, calls the hooks `RunCalls` lists when enabled and none otherwise, and changes nothing else |

## Behaviour worth knowing

- `poll` is called even with an empty id list (lib/hive/controller/ios.rb:72). See `PollExactlyOnce` and `MissingDevicePollsNothing`.
- Newly registered devices are not returned; only the handles of matched records are (lib/hive/controller/ios.rb:105). See `ReturnedHandles` and `UnknownDeviceNotReturned`.
- A matched record's id is polled only once its handle is built (lib/hive/controller/ios.rb:53-59). See `HandlesPerRecord` and `RecordLoopShape`.
- The fallback returns nil on any failure, rather than dropping the failing device (lib/hive/controller/ios.rb:115-138). See `FallbackResult`.

## Left out

- Logging (`Hive.logger`) has no bearing on results.
- The registry client's transport, timeouts and retries are not modelled. The snapshot is a value (`DeviceDetails`), read once per pass, although the code fetches `device_details` twice. Its `connected_devices` entry is either a list of records or absent.
- The registry may answer `register` by raising, which is modelled. A `poll` or `connect` that raises is not: `connect` is the last call of its rescued block, and a raising `poll` would end the pass with an exception.
- Reading a device's live attributes succeeds or fails as a whole per device (`Liveness`). A device whose version can be read but whose device class cannot is not distinguished. DeviceNotFound and other errors are told apart, but both drop the device.
- The rescue around the serial selection (lib/hive/controller/ios.rb:31-33) and the outer rescue of the registration loop (lib/hive/controller/ios.rb:99-102) guard in-memory selections that cannot raise once serial and trust are known, so they are not modelled.
- `Array#-` compares device objects. The model compares device values.
- `downcase` and `capitalize` are modelled on ASCII letters only. That matches `casecmp`, and class names are ASCII.
- Dynamic loading (`require` of the device class, the `const_get` walk in `create_device`) is not modelled. The constructor records the path it would load, and construction is the input function `accepts`.
- Inheritance is not modelled. The iOS controller's members take the stored configuration (`Env.config`) instead of reading an inherited field.
- `display_untrusted` (terminal output) and lib/hive/messages/ios_job.rb are not part of this model.
- The diagnostic's hooks are uninterpreted: a subclass's `should_run?` override, `diagnose`, `repair`, and `Results#failed?`. The internals of `Hive::Results` and the Android device API are not part of this model.
