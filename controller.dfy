/** The generic controller (Hive::Controller): derives the device class that
    goes with a controller class, defaults the port range size, and builds
    device handles from the stored configuration merged with per-device
    options. */
module Controller {
  import opened Ruby

  /** A device handle: the object the device class builds from its attributes. */
  datatype Handle = Handle(attrs: Attributes)

  /** The error the generic `detect` raises (NotImplementedError). */
  datatype ControllerError = NotImplemented(message: string)

  /** `pat` occurs in `s` starting at index `i`. */
  predicate OccursAt(s: string, pat: string, i: nat)
  {
    i + |pat| <= |s| && s[i..i + |pat|] == pat
  }

  /** String#sub with a literal pattern: replace the first occurrence of `pat`. */
  function Sub(s: string, pat: string, rep: string): string
    decreases |s|
  {
    if |pat| <= |s| && s[..|pat|] == pat then rep + s[|pat|..]
    else if s == [] then []
    else [s[0]] + Sub(s[1..], pat, rep)
  }

  /** Dropping the first character shifts every occurrence one place left. */
  lemma OccursShift(s: string, pat: string, j: nat)
    requires s != []
    ensures OccursAt(s[1..], pat, j) <==> OccursAt(s, pat, j + 1)
  {
    if j + |pat| <= |s| - 1 {
      assert s[1..][j..j + |pat|] == s[j + 1..j + 1 + |pat|];
    }
  }

  /** Sub replaces the first occurrence and keeps everything around it. */
  lemma {:induction false} SubReplacesFirst(s: string, pat: string, rep: string, i: nat)
    requires OccursAt(s, pat, i)
    requires forall j :: 0 <= j < i ==> !OccursAt(s, pat, j)
    ensures Sub(s, pat, rep) == s[..i] + rep + s[i + |pat|..]
    decreases i
  {
    if i > 0 {
      assert !OccursAt(s, pat, 0);
      assert Sub(s, pat, rep) == [s[0]] + Sub(s[1..], pat, rep);
      forall j | 0 <= j < i - 1
        ensures !OccursAt(s[1..], pat, j)
      {
        OccursShift(s, pat, j);
      }
      OccursShift(s, pat, i - 1);
      SubReplacesFirst(s[1..], pat, rep, i - 1);
      assert s[..i] == [s[0]] + s[1..][..i - 1];
      assert s[1..][i - 1 + |pat|..] == s[i + |pat|..];
    }
  }

  /** Without an occurrence, Sub leaves the string as it is. */
  lemma {:induction false} SubWithoutOccurrence(s: string, pat: string, rep: string)
    requires forall j :: 0 <= j <= |s| ==> !OccursAt(s, pat, j)
    ensures Sub(s, pat, rep) == s
    decreases |s|
  {
    assert !OccursAt(s, pat, 0);
    if s != [] {
      forall j | 0 <= j <= |s[1..]|
        ensures !OccursAt(s[1..], pat, j)
      {
        OccursShift(s, pat, j);
      }
      SubWithoutOccurrence(s[1..], pat, rep);
    }
  }

  /** The device class name that goes with a controller class name:
      the first "Controller" becomes "Device". */
  function DeviceClassFor(controllerClass: string): string
  {
    Sub(controllerClass, "Controller", "Device")
  }

  /** When "Controller" does not occur before the end of `prefix`, the
      occurrence after it is the first one and it becomes "Device"; the rest
      of the name is kept. */
  lemma DeviceClassName(prefix: string, suffix: string)
    requires forall j :: 0 <= j < |prefix| ==> !OccursAt(prefix + "Controller" + suffix, "Controller", j)
    ensures DeviceClassFor(prefix + "Controller" + suffix) == prefix + "Device" + suffix
  {
    var s := prefix + "Controller" + suffix;
    var n := |prefix|;
    assert s[n..n + 10] == "Controller";
    SubReplacesFirst(s, "Controller", "Device", n);
    assert s[..n] == prefix && s[n + 10..] == suffix;
  }

  /** The iOS controller's devices are Hive::Device::IOS. */
  lemma IOSDeviceClass(controllerClass: string)
    requires controllerClass == "Hive::Controller::IOS"
    ensures DeviceClassFor(controllerClass) == "Hive::Device::IOS"
  {
    var prefix, suffix := "Hive::", "::IOS";
    var s := prefix + "Controller" + suffix;
    assert s == controllerClass;
    assert forall j :: 0 <= j < |prefix| ==> s[j] != 'C' by {
      assert forall j :: 0 <= j < |prefix| ==> s[j] == prefix[j];
    }
    NoOccurrenceBefore(s, "Controller", |prefix|);
    DeviceClassName(prefix, suffix);
    assert prefix + "Device" + suffix == "Hive::Device::IOS";
  }

  /** A pattern cannot start where its first character is absent. */
  lemma NoOccurrenceBefore(s: string, pat: string, n: nat)
    requires pat != [] && n <= |s|
    requires forall j :: 0 <= j < n ==> s[j] != pat[0]
    ensures forall j :: 0 <= j < n ==> !OccursAt(s, pat, j)
  {
    forall j | 0 <= j < n
      ensures !OccursAt(s, pat, j)
    {
      if j + |pat| <= |s| {
        assert s[j..j + |pat|][0] == s[j];
      }
    }
  }

  /** gsub(/::/, '/'): every "::", scanned left to right, becomes "/". */
  function ReplaceColons(s: string): (r: string)
    ensures |s| > 0 ==> |r| > 0 && (r[0] == '/' || r[0] == s[0])
    decreases |s|
  {
    if |s| >= 2 && s[0] == ':' && s[1] == ':' then "/" + ReplaceColons(s[2..])
    else if s == [] then []
    else [s[0]] + ReplaceColons(s[1..])
  }

  /** The path the device class is loaded from: the name lower-cased, "::" turned into "/". */
  function RequirePathFor(deviceClass: string): string
  {
    ReplaceColons(Downcase(deviceClass))
  }

  /** No two adjacent colons. */
  predicate NoDoubleColon(s: string)
  {
    forall k :: 0 <= k < |s| - 1 ==> !(s[k] == ':' && s[k + 1] == ':')
  }

  predicate NoUpper(s: string)
  {
    forall k :: 0 <= k < |s| ==> !IsUpper(s[k])
  }

  /** No "::" survives the replacement, and it introduces no upper-case letter. */
  lemma {:induction false} ReplaceColonsComplete(s: string)
    ensures NoDoubleColon(ReplaceColons(s))
    ensures NoUpper(s) ==> NoUpper(ReplaceColons(s))
    decreases |s|
  {
    if |s| >= 2 && s[0] == ':' && s[1] == ':' {
      ReplaceColonsComplete(s[2..]);
      var t := ReplaceColons(s[2..]);
      assert ReplaceColons(s) == "/" + t;
      assert forall k :: 0 < k < |t| + 1 ==> ("/" + t)[k] == t[k - 1];
    } else if s != [] {
      ReplaceColonsComplete(s[1..]);
      var t := ReplaceColons(s[1..]);
      assert ReplaceColons(s) == [s[0]] + t;
      assert forall k :: 0 < k < |t| + 1 ==> ([s[0]] + t)[k] == t[k - 1];
      if |t| > 0 {
        assert t[0] == '/' || t[0] == s[1];
      }
    }
  }

  predicate NoColon(s: string)
  {
    forall k :: 0 <= k < |s| ==> s[k] != ':'
  }

  /** A string without a colon is left as it is. */
  lemma {:induction false} ReplaceColonsPlain(s: string)
    requires NoColon(s)
    ensures ReplaceColons(s) == s
    decreases |s|
  {
    if s != [] {
      ReplaceColonsPlain(s[1..]);
      assert ReplaceColons(s) == [s[0]] + ReplaceColons(s[1..]);
    }
  }

  /** The first "::" becomes "/", what precedes it is kept, and the
      replacement goes on after it. */
  lemma {:induction false} ReplaceColonsFirst(a: string, b: string)
    requires NoColon(a)
    ensures ReplaceColons(a + "::" + b) == a + "/" + ReplaceColons(b)
    decreases |a|
  {
    var s := a + "::" + b;
    if a == [] {
      assert s == "::" + b && s[2..] == b;
    } else {
      ReplaceColonsFirst(a[1..], b);
      assert s[0] == a[0] && s[1..] == a[1..] + "::" + b;
      assert ReplaceColons(s) == [a[0]] + ReplaceColons(s[1..]);
      assert a == [a[0]] + a[1..];
    }
  }

  lemma DowncaseAppend(a: string, b: string)
    ensures Downcase(a + b) == Downcase(a) + Downcase(b)
  {
    assert forall k :: 0 <= k < |a + b| ==> Downcase(a + b)[k] == (Downcase(a) + Downcase(b))[k];
  }

  /** Lower-casing keeps every colon and introduces none. */
  lemma DowncaseNoColon(s: string)
    requires NoColon(s)
    ensures NoColon(Downcase(s))
  {
  }

  /** The require path of a name with no colon is the name lower-cased. */
  lemma RequirePathPlain(name: string)
    requires NoColon(name)
    ensures RequirePathFor(name) == Downcase(name)
  {
    DowncaseNoColon(name);
    ReplaceColonsPlain(Downcase(name));
  }

  /** The require path of `a::b`, with `a` a plain segment, is `a` lower-cased,
      a "/", then the require path of `b`. */
  lemma RequirePathSegments(a: string, b: string)
    requires NoColon(a)
    ensures RequirePathFor(a + "::" + b) == Downcase(a) + "/" + RequirePathFor(b)
  {
    DowncaseAppend(a + "::", b);
    DowncaseAppend(a, "::");
    assert Downcase("::") == "::";
    DowncaseNoColon(a);
    ReplaceColonsFirst(Downcase(a), Downcase(b));
  }

  /** Hive::Device::IOS is loaded from hive/device/ios. */
  lemma IOSRequirePath(deviceClass: string)
    requires deviceClass == "Hive::Device::IOS"
    ensures RequirePathFor(deviceClass) == "hive/device/ios"
  {
    var hive, device, ios := "Hive", "Device", "IOS";
    var tail := device + "::" + ios;
    assert deviceClass == hive + "::" + tail;
    assert RequirePathFor(tail) == Downcase(device) + "/" + Downcase(ios) by {
      RequirePathSegments(device, ios);
      RequirePathPlain(ios);
    }
    RequirePathSegments(hive, tail);
    assert Downcase(hive) == "hive" && Downcase(device) == "device" && Downcase(ios) == "ios";
  }

  /** The require path holds no "::" and no upper-case ASCII letter. */
  lemma RequirePathShape(deviceClass: string)
    ensures NoDoubleColon(RequirePathFor(deviceClass))
    ensures NoUpper(RequirePathFor(deviceClass))
  {
    ReplaceColonsComplete(Downcase(deviceClass));
  }

  /** `port_range_size`: the configured entry when the key is present, whatever
      its value (nil included), and 0 otherwise. */
  function PortRangeSize(config: Attributes): (r: Value)
    ensures "port_range_size" in config ==> r == config["port_range_size"]
    ensures "port_range_size" !in config ==> r == Num(0)
  {
    if "port_range_size" in config then config["port_range_size"] else Num(0)
  }

  /** Hash#merge: `extra` wins on shared keys, keys only in `config` keep their values. */
  function Merge(config: Attributes, extra: Attributes): (r: Attributes)
    ensures r.Keys == config.Keys + extra.Keys
    ensures forall k :: k in extra ==> r[k] == extra[k]
    ensures forall k :: k in config && k !in extra ==> r[k] == config[k]
    ensures extra == map[] ==> r == config
  {
    config + extra
  }

  /** create_device: the device class builds a handle from the configuration
      merged with `extraOptions`; `accepts` says whether that construction
      succeeds (it raises otherwise). */
  function CreateDevice(config: Attributes, extraOptions: Attributes, accepts: Attributes -> bool): (r: Option<Handle>)
    ensures r.Some? <==> accepts(Merge(config, extraOptions))
    ensures r.Some? ==> r.value.attrs.Keys == config.Keys + extraOptions.Keys
    ensures r.Some? ==> forall k :: k in extraOptions ==> r.value.attrs[k] == extraOptions[k]
    ensures r.Some? ==> forall k :: k in config && k !in extraOptions ==> r.value.attrs[k] == config[k]
  {
    var attrs := Merge(config, extraOptions);
    if accepts(attrs) then Some(Handle(attrs)) else None
  }

  /** With no extra options the device is built from exactly the stored configuration. */
  lemma CreateDeviceNoExtras(config: Attributes, accepts: Attributes -> bool)
    ensures CreateDevice(config, map[], accepts).Some? <==> accepts(config)
    ensures CreateDevice(config, map[], accepts).Some? ==> CreateDevice(config, map[], accepts).value.attrs == config
  {
    assert Merge(config, map[]) == config;
  }

  class Controller {
    /** The Ruby class of this controller, as `self.class.to_s` prints it. */
    const className: string
    var config: Attributes
    var deviceClass: string
    /** The path handed to `require` while constructing. */
    var requiredPath: string
    var portRangeSize: Value

    constructor (className: string, config: Attributes := map[])
      ensures this.className == className && this.config == config
      ensures deviceClass == DeviceClassFor(className)
      ensures requiredPath == RequirePathFor(deviceClass)
      ensures portRangeSize == PortRangeSize(config)
    {
      this.className := className;
      this.config := config;
      deviceClass := DeviceClassFor(className);
      requiredPath := RequirePathFor(DeviceClassFor(className));
      portRangeSize := PortRangeSize(config);
    }

    /** The generic controller cannot detect devices: a concrete controller must. */
    method Detect() returns (e: ControllerError)
      ensures e.message == "'detect' method not defined for '" + className + "'"
    {
      e := NotImplemented("'detect' method not defined for '" + className + "'");
    }
  }
}
