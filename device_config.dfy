/**
 * The configuration reader of the Smart Devices program (`processNode`).
 * The XML reader is a sequence of nodes, each with its name and attribute
 * map (an end element is a node without attributes). The reader's static
 * state is a validity flag and the section being read; it appends
 * devices, groups and scenes, and child elements of a device fill in the
 * device most recently added.
 */
module DeviceConfig {
  import opened Wrappers
  import opened JipTypes
  import opened CNumber

  /** The `Version` a configuration file must carry. */
  const CONFIG_FILE_VERSION: int := 1

  /** One node delivered by `xmlTextReaderRead`: `xmlTextReaderName` and its attributes (`xmlTextReaderAttributeCount` is their number). */
  datatype XmlNode = XmlNode(name: string, attributes: map<string, string>)

  /** `eDeviceLookup` of a stored device; `E_LOOKUP_NONE` is never stored. */
  datatype Lookup = ById | ByBaseType

  /** A `tsDevice`; every pointer field is None when NULL. */
  datatype Device = Device(
    lookup: Lookup, deviceId: nat, baseType: nat, name: string,
    image: Option<string>,
    stateControlMib: Option<string>, stateControlVar: Option<string>,
    levelControlMib: Option<string>, levelControlVar: Option<string>, levelControlMax: Option<string>,
    levelFeedbackMib: Option<string>, levelFeedbackVar: Option<string>, levelFeedbackLabel: Option<string>)

  datatype Group = Group(name: string, address: string)

  datatype Scene = Scene(name: string, address: string, image: Option<string>, value: string)

  /** `eState` */
  datatype Section = NoSection | DeviceSection | GroupsSection | ScenesSection

  /** The globals `processNode` fills in. */
  datatype Config = Config(
    valid: bool, section: Section,
    devices: seq<Device>, groups: seq<Group>, scenes: seq<Scene>,
    globalGroup: Option<Group>,
    groupStateControlMib: Option<string>, groupStateControlVar: Option<string>,
    groupLevelControlMib: Option<string>, groupLevelControlVar: Option<string>, groupLevelControlMax: Option<string>,
    sceneControlMib: Option<string>, sceneControlVar: Option<string>)

  /** The state before the first node: not valid, no section, nothing recorded. */
  const INITIAL: Config := Config(false, NoSection, [], [], [], None, None, None, None, None, None, None, None)

  /** The invariant the reader keeps: it is in the device section only after recording a device. */
  predicate Wf(c: Config)
  {
    c.section == DeviceSection ==> |c.devices| > 0
  }

  /** `xmlTextReaderGetAttribute`: the value, or NULL. */
  function Attr(attrs: map<string, string>, key: string): Option<string>
  {
    if key in attrs then Some(attrs[key]) else None
  }

  /**
   * The version of a `SmartDevicesCgiConfig` element: `strtoll` in base
   * 16 stored into a `long` (32 bits, two's complement), 0 when the
   * attribute is missing or the conversion overflows.
   */
  function Version(attrs: map<string, string>): int
  {
    if "Version" !in attrs then 0
    else
      var c := StrToSigned(attrs["Version"], 16, LONG_LONG_BITS);
      if c.erange then 0 else ToSigned(Truncate(c.value, LONG_BITS), LONG_BITS)
  }

  /** The element that makes the file valid: `SmartDevicesCgiConfig` with attributes and Version 1. */
  predicate ValidHeader(n: XmlNode)
  {
    n.name == "SmartDevicesCgiConfig" && |n.attributes| > 0 && Version(n.attributes) == CONFIG_FILE_VERSION
  }

  /** A fresh device entry: lookup, ID, base type and name, every other field NULL. */
  function NewDevice(lookup: Lookup, id: nat, baseType: nat, name: string): Device
  {
    Device(lookup, id, baseType, name, None, None, None, None, None, None, None, None, None)
  }

  /** A `strtoll(..., 16)` of an attribute that may be missing. */
  function HexAttr(attrs: map<string, string>, key: string): Option<Conversion>
  {
    if key in attrs then Some(StrToSigned(attrs[key], 16, LONG_LONG_BITS)) else None
  }

  /**
   * A `Device` element with exactly two attributes: an overflowing ID or
   * BaseType, no ID and no BaseType, or no Name leaves everything as it
   * was; otherwise the device is appended (BaseType wins the lookup when
   * both are given) and the device section begins.
   */
  function DeviceElement(c: Config, attrs: map<string, string>): (r: Config)
  {
    var id := HexAttr(attrs, "ID");
    var baseType := HexAttr(attrs, "BaseType");
    if id.Some? && id.value.erange then c
    else if baseType.Some? && baseType.value.erange then c
    else if id.None? && baseType.None? then c
    else if "Name" !in attrs then c
    else
      var lookup := if baseType.Some? then ByBaseType else ById;
      var deviceId := if id.Some? then Truncate(id.value.value, 32) else 0;
      var base := if baseType.Some? then Truncate(baseType.value.value, 8) else 0;
      c.(devices := c.devices + [NewDevice(lookup, deviceId, base, attrs["Name"])], section := DeviceSection)
  }

  /** The device most recently added, replaced by `d`. */
  function WithLast(c: Config, d: Device): Config
    requires |c.devices| > 0
  {
    c.(devices := c.devices[|c.devices| - 1 := d])
  }

  /** The elements that fill in the device most recently added. */
  function DeviceChildElement(c: Config, n: XmlNode): Config
    requires |c.devices| > 0
  {
    var count := |n.attributes|;
    var a := n.attributes;
    var d := c.devices[|c.devices| - 1];
    if n.name == "Image" && count == 1 then WithLast(c, d.(image := Attr(a, "src")))
    else if n.name == "StateControl" && count == 2 then
      WithLast(c, d.(stateControlMib := Attr(a, "MiB"), stateControlVar := Attr(a, "Var")))
    else if n.name == "LevelControl" && count == 3 then
      WithLast(c, d.(levelControlMib := Attr(a, "MiB"), levelControlVar := Attr(a, "Var"), levelControlMax := Attr(a, "Max")))
    else if n.name == "LevelFeedback" && count == 3 then
      WithLast(c, d.(levelFeedbackMib := Attr(a, "MiB"), levelFeedbackVar := Attr(a, "Var"), levelFeedbackLabel := Attr(a, "Label")))
    else c
  }

  /** The elements of the `Groups` section. */
  function GroupsElement(c: Config, n: XmlNode): Config
  {
    var count := |n.attributes|;
    var a := n.attributes;
    if n.name == "StateControl" && count == 2 then
      c.(groupStateControlMib := Attr(a, "MiB"), groupStateControlVar := Attr(a, "Var"))
    else if n.name == "LevelControl" && count == 3 then
      c.(groupLevelControlMib := Attr(a, "MiB"), groupLevelControlVar := Attr(a, "Var"), groupLevelControlMax := Attr(a, "Max"))
    else if n.name == "Global" && count == 2 then
      c.(globalGroup := if "Name" in a && "Address" in a then Some(Group(a["Name"], a["Address"])) else None)
    else if n.name == "Group" && count == 2 && "Name" in a && "Address" in a then
      c.(groups := c.groups + [Group(a["Name"], a["Address"])])
    else c
  }

  /** The elements of the `Scenes` section. */
  function ScenesElement(c: Config, n: XmlNode): Config
  {
    var count := |n.attributes|;
    var a := n.attributes;
    if n.name == "SceneControl" && count == 2 then
      c.(sceneControlMib := Attr(a, "MiB"), sceneControlVar := Attr(a, "Var"))
    else if n.name == "Scene" && 3 <= count <= 4 && "Name" in a && "Address" in a && "Value" in a then
      c.(scenes := c.scenes + [Scene(a["Name"], a["Address"], Attr(a, "Image"), a["Value"])])
    else c
  }

  /** The header check at the top of `processNode`: a valid header sets the flag, which is never cleared. */
  function Header(c: Config, n: XmlNode): Config
  {
    c.(valid := c.valid || ValidHeader(n))
  }

  /** The rest of `processNode`, after the header check. */
  function Dispatch(c: Config, n: XmlNode): (r: Config)
    requires Wf(c)
    ensures Wf(r)
  {
    if !c.valid then c
    else if n.name == "Device" && |n.attributes| == 2 then DeviceElement(c, n.attributes)
    else if n.name == "Groups" && |n.attributes| == 0 then c.(section := GroupsSection)
    else if n.name == "Scenes" && |n.attributes| == 0 then c.(section := ScenesSection)
    else match c.section
      case NoSection => c
      case DeviceSection => DeviceChildElement(c, n)
      case GroupsSection => GroupsElement(c, n)
      case ScenesSection => ScenesElement(c, n)
  }

  /** What `processNode` does with one node. */
  function Step(c: Config, n: XmlNode): (r: Config)
    requires Wf(c)
    ensures Wf(r)
  {
    Dispatch(Header(c, n), n)
  }

  /** The reading loop: `processNode` on every node in order. */
  function Run(c: Config, nodes: seq<XmlNode>): (r: Config)
    requires Wf(c)
    ensures Wf(r)
    decreases |nodes|
  {
    if nodes == [] then c else Run(Step(c, nodes[0]), nodes[1..])
  }

  /** Names of the elements that fill in the most recent device. */
  predicate DeviceChild(name: string)
  {
    name == "Image" || name == "StateControl" || name == "LevelControl" || name == "LevelFeedback"
  }

  // ---- the reader, with its state in fields ----

  class ConfigReader {
    var valid: bool
    var section: Section
    var devices: seq<Device>
    var groups: seq<Group>
    var scenes: seq<Scene>
    var globalGroup: Option<Group>
    var groupStateControlMib: Option<string>
    var groupStateControlVar: Option<string>
    var groupLevelControlMib: Option<string>
    var groupLevelControlVar: Option<string>
    var groupLevelControlMax: Option<string>
    var sceneControlMib: Option<string>
    var sceneControlVar: Option<string>

    function State(): Config
      reads this
    {
      Config(valid, section, devices, groups, scenes, globalGroup,
             groupStateControlMib, groupStateControlVar,
             groupLevelControlMib, groupLevelControlVar, groupLevelControlMax,
             sceneControlMib, sceneControlVar)
    }

    predicate Valid()
      reads this
    {
      Wf(State())
    }

    constructor ()
      ensures State() == INITIAL && Valid()
    {
      valid, section := false, NoSection;
      devices, groups, scenes := [], [], [];
      globalGroup := None;
      groupStateControlMib, groupStateControlVar := None, None;
      groupLevelControlMib, groupLevelControlVar, groupLevelControlMax := None, None, None;
      sceneControlMib, sceneControlVar := None, None;
    }

    /** `processNode`: the validity check, then the element's effect on the recorded configuration. */
    method ProcessNode(n: XmlNode)
      requires Valid()
      modifies this
      ensures Valid()
      ensures State() == Step(old(State()), n)
    {
      CheckHeader(n);
      DispatchNode(n);
    }

    /** The header check: a `SmartDevicesCgiConfig` element with attributes and Version 1 makes the file valid. */
    method CheckHeader(n: XmlNode)
      modifies this
      ensures State() == Header(old(State()), n)
    {
      if n.name == "SmartDevicesCgiConfig" && |n.attributes| > 0 {
        var version := Version(n.attributes);
        if version == CONFIG_FILE_VERSION {
          valid := true;
        }
      }
    }

    /** Everything after the header check: nothing before a valid header, then the element's own branch. */
    method DispatchNode(n: XmlNode)
      requires Valid()
      modifies this
      ensures Valid()
      ensures State() == Dispatch(old(State()), n)
    {
      var count := |n.attributes|;
      if !valid {
        return;
      }
      if n.name == "Device" {
        if count == 2 {
          AddDevice(n.attributes);
          return;
        }
      } else if n.name == "Groups" {
        if count == 0 {
          section := GroupsSection;
          return;
        }
      } else if n.name == "Scenes" {
        if count == 0 {
          section := ScenesSection;
          return;
        }
      }
      match section
      case DeviceSection => FillDevice(n);
      case GroupsSection => GroupsChild(n);
      case ScenesSection => ScenesChild(n);
      case NoSection =>
    }

    /** A child element of the device section: it fills in fields of the device most recently added. */
    method FillDevice(n: XmlNode)
      requires |devices| > 0
      modifies this
      ensures State() == DeviceChildElement(old(State()), n)
    {
      var count := |n.attributes|;
      var a := n.attributes;
      var last := |devices| - 1;
      var d := devices[last];
      if n.name == "Image" && count == 1 {
        devices := devices[last := d.(image := Attr(a, "src"))];
      } else if n.name == "StateControl" && count == 2 {
        devices := devices[last := d.(stateControlMib := Attr(a, "MiB"), stateControlVar := Attr(a, "Var"))];
      } else if n.name == "LevelControl" && count == 3 {
        devices := devices[last := d.(levelControlMib := Attr(a, "MiB"), levelControlVar := Attr(a, "Var"), levelControlMax := Attr(a, "Max"))];
      } else if n.name == "LevelFeedback" && count == 3 {
        devices := devices[last := d.(levelFeedbackMib := Attr(a, "MiB"), levelFeedbackVar := Attr(a, "Var"), levelFeedbackLabel := Attr(a, "Label"))];
      }
    }

    /** A child element of the `Groups` section. */
    method GroupsChild(n: XmlNode)
      modifies this
      ensures State() == GroupsElement(old(State()), n)
    {
      var count := |n.attributes|;
      var a := n.attributes;
      if n.name == "StateControl" && count == 2 {
        groupStateControlMib, groupStateControlVar := Attr(a, "MiB"), Attr(a, "Var");
      } else if n.name == "LevelControl" && count == 3 {
        groupLevelControlMib, groupLevelControlVar, groupLevelControlMax := Attr(a, "MiB"), Attr(a, "Var"), Attr(a, "Max");
      } else if n.name == "Global" && count == 2 {
        var name, address := Attr(a, "Name"), Attr(a, "Address");
        if name.None? || address.None? {
          globalGroup := None;
        } else {
          globalGroup := Some(Group(name.value, address.value));
        }
      } else if n.name == "Group" && count == 2 {
        var name, address := Attr(a, "Name"), Attr(a, "Address");
        if name.Some? && address.Some? {
          groups := groups + [Group(name.value, address.value)];
        }
      }
    }

    /** A child element of the `Scenes` section. */
    method ScenesChild(n: XmlNode)
      modifies this
      ensures State() == ScenesElement(old(State()), n)
    {
      var count := |n.attributes|;
      var a := n.attributes;
      if n.name == "SceneControl" && count == 2 {
        sceneControlMib, sceneControlVar := Attr(a, "MiB"), Attr(a, "Var");
      } else if n.name == "Scene" && 3 <= count <= 4 {
        var name, address, value, image := Attr(a, "Name"), Attr(a, "Address"), Attr(a, "Value"), Attr(a, "Image");
        if name.Some? && address.Some? && value.Some? {
          scenes := scenes + [Scene(name.value, address.value, image, value.value)];
        }
      }
    }

    /** The `Device` branch with its two attributes. */
    method AddDevice(a: map<string, string>)
      requires valid
      modifies this
      ensures State() == DeviceElement(old(State()), a)
    {
      var lookup: Option<Lookup> := None;
      var deviceId, baseType := 0, 0;
      if "ID" in a {
        var c := StrToSigned(a["ID"], 16, LONG_LONG_BITS);
        if c.erange {
          return;
        }
        deviceId := Truncate(c.value, 32);
        lookup := Some(ById);
      }
      if "BaseType" in a {
        var c := StrToSigned(a["BaseType"], 16, LONG_LONG_BITS);
        if c.erange {
          return;
        }
        baseType := Truncate(c.value, 8);
        lookup := Some(ByBaseType);
      }
      if lookup.None? {
        return;
      }
      if "Name" !in a {
        return;
      }
      devices := devices + [NewDevice(lookup.value, deviceId, baseType, a["Name"])];
      section := DeviceSection;
    }

    /** `read_config`'s loop: every node the reader delivers, in order. */
    method Load(nodes: seq<XmlNode>)
      requires Valid()
      modifies this
      ensures Valid()
      ensures State() == Run(old(State()), nodes)
    {
      var i := 0;
      while i < |nodes|
        invariant 0 <= i <= |nodes|
        invariant Valid()
        invariant Run(old(State()), nodes) == Run(State(), nodes[i..])
      {
        assert nodes[i..][1..] == nodes[i + 1..];
        ProcessNode(nodes[i]);
        i := i + 1;
      }
    }
  }

  // ---- properties of the reader ----

  /** Once a valid header has been seen the file stays valid. */
  lemma {:induction false} ValidityIsSticky(c: Config, nodes: seq<XmlNode>)
    requires Wf(c) && c.valid
    ensures Run(c, nodes).valid
    decreases |nodes|
  {
    if nodes != [] {
      ValidityIsSticky(Step(c, nodes[0]), nodes[1..]);
    }
  }

  /** Before a valid header every node is ignored, whatever its name. */
  lemma {:induction false} IgnoredUntilValid(c: Config, nodes: seq<XmlNode>)
    requires Wf(c) && !c.valid
    requires forall i :: 0 <= i < |nodes| ==> !ValidHeader(nodes[i])
    ensures Run(c, nodes) == c
    decreases |nodes|
  {
    if nodes != [] {
      IgnoredUntilValid(Step(c, nodes[0]), nodes[1..]);
    }
  }

  /**
   * A `Device` element is appended exactly when the file is valid, it has
   * two attributes, neither ID nor BaseType overflows, one of them is
   * given, and it has a Name; the new entry holds those values with
   * every other field NULL, and the device section begins.
   */
  lemma DeviceAppended(c: Config, n: XmlNode)
    requires Wf(c) && n.name == "Device"
    ensures var r := Step(c, n);
      |r.devices| == |c.devices| + 1 <==>
        c.valid && |n.attributes| == 2
        && (HexAttr(n.attributes, "ID").Some? || HexAttr(n.attributes, "BaseType").Some?)
        && !(HexAttr(n.attributes, "ID").Some? && HexAttr(n.attributes, "ID").value.erange)
        && !(HexAttr(n.attributes, "BaseType").Some? && HexAttr(n.attributes, "BaseType").value.erange)
        && "Name" in n.attributes
    ensures var r := Step(c, n);
      |r.devices| == |c.devices| + 1 ==>
        r.devices[..|c.devices|] == c.devices && r.section == DeviceSection
        && r.groups == c.groups && r.scenes == c.scenes
        && var d := r.devices[|c.devices|];
           d.name == n.attributes["Name"]
           && (d.lookup == ByBaseType <==> "BaseType" in n.attributes)
           && d.deviceId == (if "ID" in n.attributes then Truncate(HexAttr(n.attributes, "ID").value.value, 32) else 0)
           && d.baseType == (if "BaseType" in n.attributes then Truncate(HexAttr(n.attributes, "BaseType").value.value, 8) else 0)
           && d == NewDevice(d.lookup, d.deviceId, d.baseType, d.name)
    ensures var r := Step(c, n); |r.devices| != |c.devices| + 1 ==> r.devices == c.devices
  {
    assert Header(c, n) == c;
    if c.valid && |n.attributes| == 2 {
      assert Step(c, n) == DeviceElement(c, n.attributes);
    } else {
      assert Step(c, n).devices == c.devices;
    }
  }

  /** The header check changes nothing but the validity flag, and sets it only on a header element. */
  lemma HeaderOnlyValidates(c: Config, n: XmlNode)
    ensures Header(c, n) == c.(valid := Header(c, n).valid)
    ensures Header(c, n).valid ==> c.valid || n.name == "SmartDevicesCgiConfig"
    ensures c.valid ==> Header(c, n).valid
  {
  }

  /** A child element of the device section changes only the most recent device, and never its name. */
  lemma FillDeviceKeepsName(c: Config, n: XmlNode)
    requires |c.devices| > 0
    ensures var r := DeviceChildElement(c, n);
      |r.devices| == |c.devices| && r.devices[..|c.devices| - 1] == c.devices[..|c.devices| - 1]
      && r.devices[|c.devices| - 1].name == c.devices[|c.devices| - 1].name
      && (r.devices != c.devices ==> DeviceChild(n.name))
      && r.groups == c.groups && r.scenes == c.scenes
  {
    var r := DeviceChildElement(c, n);
    if r.devices != c.devices {
      assert r.devices[..|c.devices| - 1] == c.devices[..|c.devices| - 1];
    }
  }

  /** `OnlyLastDeviceChanges` after any header check whose outcome `header` is set only by a header element. */
  lemma DispatchKeepsDevices(c: Config, n: XmlNode, header: bool)
    requires Wf(c) && n.name != "Device"
    requires header ==> n.name == "SmartDevicesCgiConfig"
    ensures var r := Dispatch(c.(valid := c.valid || header), n);
      |r.devices| == |c.devices|
      && (c.devices != [] ==> r.devices[..|c.devices| - 1] == c.devices[..|c.devices| - 1])
      && (r.devices != c.devices ==>
            c.valid && c.section == DeviceSection && DeviceChild(n.name)
            && r.devices[|c.devices| - 1].name == c.devices[|c.devices| - 1].name)
  {
    var h := c.(valid := c.valid || header);
    if h.valid && h.section == DeviceSection
       && !(n.name == "Groups" && |n.attributes| == 0) && !(n.name == "Scenes" && |n.attributes| == 0) {
      assert Dispatch(h, n) == DeviceChildElement(h, n);
      FillDeviceKeepsName(h, n);
    } else {
      assert Dispatch(h, n).devices == c.devices;
    }
  }

  /**
   * Every other node leaves the devices alone except for the most recent
   * one, which only a device child element in the device section of a
   * valid file may change.
   */
  lemma OnlyLastDeviceChanges(c: Config, n: XmlNode)
    requires Wf(c) && n.name != "Device"
    ensures |Step(c, n).devices| == |c.devices|
    ensures c.devices != [] ==> Step(c, n).devices[..|c.devices| - 1] == c.devices[..|c.devices| - 1]
    ensures Step(c, n).devices != c.devices ==> c.valid && c.section == DeviceSection && DeviceChild(n.name)
    ensures Step(c, n).devices != c.devices ==> Step(c, n).devices[|c.devices| - 1].name == c.devices[|c.devices| - 1].name
  {
    HeaderOnlyValidates(c, n);
    DispatchKeepsDevices(c, n, ValidHeader(n));
  }

  /** The `Groups` section's elements: only a `Group` element with Name and Address adds a group, and scenes stay. */
  lemma GroupsElementAppends(c: Config, n: XmlNode)
    ensures var r := GroupsElement(c, n);
      r.scenes == c.scenes && r.devices == c.devices
      && (r.groups == c.groups
          || (n.name == "Group" && |n.attributes| == 2 && "Name" in n.attributes && "Address" in n.attributes
              && r.groups == c.groups + [Group(n.attributes["Name"], n.attributes["Address"])]))
      && ((n.name == "Group" && |n.attributes| == 2 && "Name" in n.attributes && "Address" in n.attributes) ==> |r.groups| == |c.groups| + 1)
  {
  }

  /** The `Scenes` section's elements: only a `Scene` element with Name, Address and Value adds a scene, and groups stay. */
  lemma ScenesElementAppends(c: Config, n: XmlNode)
    ensures var r := ScenesElement(c, n);
      r.groups == c.groups && r.devices == c.devices
      && (r.scenes == c.scenes
          || (n.name == "Scene" && 3 <= |n.attributes| <= 4
              && "Name" in n.attributes && "Address" in n.attributes && "Value" in n.attributes
              && r.scenes == c.scenes + [Scene(n.attributes["Name"], n.attributes["Address"], Attr(n.attributes, "Image"), n.attributes["Value"])]))
      && ((n.name == "Scene" && 3 <= |n.attributes| <= 4 && "Name" in n.attributes && "Address" in n.attributes && "Value" in n.attributes)
          ==> |r.scenes| == |c.scenes| + 1)
  {
  }

  /** `GroupsAndScenesAppended` after any header check whose outcome `header` is set only by a header element. */
  lemma DispatchAppends(c: Config, n: XmlNode, header: bool)
    requires Wf(c)
    requires header ==> n.name == "SmartDevicesCgiConfig"
    ensures var r := Dispatch(c.(valid := c.valid || header), n);
      r.groups == c.groups
      || (c.valid && c.section == GroupsSection && n.name == "Group" && |n.attributes| == 2
          && "Name" in n.attributes && "Address" in n.attributes
          && r.groups == c.groups + [Group(n.attributes["Name"], n.attributes["Address"])])
    ensures var r := Dispatch(c.(valid := c.valid || header), n);
      r.scenes == c.scenes
      || (c.valid && c.section == ScenesSection && n.name == "Scene" && 3 <= |n.attributes| <= 4
          && "Name" in n.attributes && "Address" in n.attributes && "Value" in n.attributes
          && r.scenes == c.scenes + [Scene(n.attributes["Name"], n.attributes["Address"], Attr(n.attributes, "Image"), n.attributes["Value"])])
    ensures (c.valid && c.section == GroupsSection && n.name == "Group" && |n.attributes| == 2
             && "Name" in n.attributes && "Address" in n.attributes) ==> |Dispatch(c.(valid := c.valid || header), n).groups| == |c.groups| + 1
    ensures (c.valid && c.section == ScenesSection && n.name == "Scene" && 3 <= |n.attributes| <= 4
             && "Name" in n.attributes && "Address" in n.attributes && "Value" in n.attributes) ==> |Dispatch(c.(valid := c.valid || header), n).scenes| == |c.scenes| + 1
  {
    var h := c.(valid := c.valid || header);
    var r := Dispatch(h, n);
    if !h.valid {
      assert r == h;
    } else if n.name == "Device" && |n.attributes| == 2 {
      assert r == DeviceElement(h, n.attributes);
    } else if (n.name == "Groups" || n.name == "Scenes") && |n.attributes| == 0 {
      assert r.groups == c.groups && r.scenes == c.scenes;
    } else if h.section == GroupsSection {
      assert r == GroupsElement(h, n);
      GroupsElementAppends(h, n);
    } else if h.section == ScenesSection {
      assert r == ScenesElement(h, n);
      ScenesElementAppends(h, n);
    } else if h.section == DeviceSection {
      assert r == DeviceChildElement(h, n);
      FillDeviceKeepsName(h, n);
    } else {
      assert r == h;
    }
  }

  /**
   * Groups and scenes only ever grow at the end: a `Group` with two
   * attributes, both Name and Address, appends a group; a `Scene` with
   * three or four attributes and Name, Address and Value appends a scene.
   */
  lemma GroupsAndScenesAppended(c: Config, n: XmlNode)
    requires Wf(c)
    ensures var r := Step(c, n);
      r.groups == c.groups
      || (c.valid && c.section == GroupsSection && n.name == "Group" && |n.attributes| == 2
          && "Name" in n.attributes && "Address" in n.attributes
          && r.groups == c.groups + [Group(n.attributes["Name"], n.attributes["Address"])])
    ensures var r := Step(c, n);
      r.scenes == c.scenes
      || (c.valid && c.section == ScenesSection && n.name == "Scene" && 3 <= |n.attributes| <= 4
          && "Name" in n.attributes && "Address" in n.attributes && "Value" in n.attributes
          && r.scenes == c.scenes + [Scene(n.attributes["Name"], n.attributes["Address"], Attr(n.attributes, "Image"), n.attributes["Value"])])
    ensures (c.valid && c.section == GroupsSection && n.name == "Group" && |n.attributes| == 2
             && "Name" in n.attributes && "Address" in n.attributes) ==> |Step(c, n).groups| == |c.groups| + 1
    ensures (c.valid && c.section == ScenesSection && n.name == "Scene" && 3 <= |n.attributes| <= 4
             && "Name" in n.attributes && "Address" in n.attributes && "Value" in n.attributes) ==> |Step(c, n).scenes| == |c.scenes| + 1
  {
    HeaderOnlyValidates(c, n);
    DispatchAppends(c, n, ValidHeader(n));
  }

  /**
   * `Groups` and `Scenes` without attributes switch the section in a valid
   * file; apart from them only a `Device` with two attributes changes it.
   */
  lemma SectionSwitch(c: Config, n: XmlNode)
    requires Wf(c)
    ensures c.valid && n.name == "Groups" && |n.attributes| == 0 ==> Step(c, n) == c.(section := GroupsSection)
    ensures c.valid && n.name == "Scenes" && |n.attributes| == 0 ==> Step(c, n) == c.(section := ScenesSection)
    ensures Step(c, n).section != c.section ==>
      c.valid && (((n.name == "Groups" || n.name == "Scenes") && |n.attributes| == 0) || (n.name == "Device" && |n.attributes| == 2))
  {
    var h := Header(c, n);
    assert h == c.(valid := h.valid);
    if !h.valid {
      assert Step(c, n) == h;
    } else if n.name == "Device" && |n.attributes| == 2 {
      assert h.valid == c.valid;
    } else if (n.name == "Groups" || n.name == "Scenes") && |n.attributes| == 0 {
      assert h.valid == c.valid;
    } else {
      ElementsKeepSection(h, n);
    }
  }

  /** The elements inside a section never change the section. */
  lemma ElementsKeepSection(c: Config, n: XmlNode)
    requires Wf(c) && c.valid
    requires !(n.name == "Device" && |n.attributes| == 2)
    requires !((n.name == "Groups" || n.name == "Scenes") && |n.attributes| == 0)
    ensures Dispatch(c, n).section == c.section
  {
    match c.section
    case NoSection =>
    case DeviceSection => assert DeviceChildElement(c, n).section == c.section;
    case GroupsSection => assert GroupsElement(c, n).section == c.section;
    case ScenesSection => assert ScenesElement(c, n).section == c.section;
  }

  /** Between two configurations, recorded groups and scenes and every device but the last are kept. */
  predicate Extends(c: Config, r: Config)
  {
    |r.groups| >= |c.groups| && r.groups[..|c.groups|] == c.groups
    && |r.scenes| >= |c.scenes| && r.scenes[..|c.scenes|] == c.scenes
    && |r.devices| >= |c.devices|
    && (c.devices != [] ==> r.devices[..|c.devices| - 1] == c.devices[..|c.devices| - 1])
  }

  lemma ExtendsTransitive(a: Config, b: Config, c: Config)
    requires Extends(a, b) && Extends(b, c)
    ensures Extends(a, c)
  {
    assert c.groups[..|a.groups|] == c.groups[..|b.groups|][..|a.groups|];
    assert c.scenes[..|a.scenes|] == c.scenes[..|b.scenes|][..|a.scenes|];
    if a.devices != [] {
      assert c.devices[..|a.devices| - 1] == c.devices[..|b.devices| - 1][..|a.devices| - 1];
    }
  }

  /** One node keeps what was recorded before it, except the last device. */
  lemma StepExtends(c: Config, n: XmlNode)
    requires Wf(c)
    ensures Extends(c, Step(c, n))
  {
    GroupsAndScenesAppended(c, n);
    if n.name == "Device" {
      DeviceAppended(c, n);
    } else {
      OnlyLastDeviceChanges(c, n);
    }
  }

  /** Over any run, recorded groups and scenes stay as they were and every device but the last is frozen. */
  lemma {:induction false} EarlierEntriesKept(c: Config, nodes: seq<XmlNode>)
    requires Wf(c)
    ensures var r := Run(c, nodes);
      |r.groups| >= |c.groups| && r.groups[..|c.groups|] == c.groups
      && |r.scenes| >= |c.scenes| && r.scenes[..|c.scenes|] == c.scenes
      && |r.devices| >= |c.devices|
      && (c.devices != [] ==> r.devices[..|c.devices| - 1] == c.devices[..|c.devices| - 1])
    decreases |nodes|
  {
    if nodes != [] {
      var s := Step(c, nodes[0]);
      StepExtends(c, nodes[0]);
      EarlierEntriesKept(s, nodes[1..]);
      ExtendsTransitive(c, s, Run(s, nodes[1..]));
    }
  }

  /** A one-digit hexadecimal literal reads as that digit. */
  lemma ScanDigit(d: char)
    requires '0' <= d <= '9'
    ensures ScanInteger([d], 16) == Scan(false, d as int - '0' as int)
  {
    SkipSpaceNone([d]);
    assert DigitRun([d], 16) == 1;
    assert [d][..1] == [d];
    assert [d][..0] == [];
    assert DigitsValue([d], 16) == DigitValue(d);
    assert Magnitude([d], 16) == DigitsValue([d], 16);
  }

  /** The version of a header whose Version attribute is one decimal digit is that digit. */
  lemma VersionOfDigit(d: char)
    requires '0' <= d <= '9'
    ensures Version(map["Version" := [d]]) == d as int - '0' as int
  {
    ScanDigit(d);
    var v := d as int - '0' as int;
    SmallSigned(v, LONG_LONG_BITS);
    SmallSigned(v, LONG_BITS);
  }

  /** A value below 16 is in range for `strtoll` and survives the cast to a 32-bit `int`. */
  lemma SmallSigned(v: nat, bits: nat)
    requires v < 16 && bits >= 5
    ensures SignedOf(Scan(false, v), bits) == Conversion(v, false)
    ensures Truncate(v, bits) == v && ToSigned(v, bits) == v
  {
    Pow2Monotone(4, bits - 1);
    assert Pow2(4) == 16;
    assert Pow2(bits) == 2 * Pow2(bits - 1);
  }

  /** A file whose header says Version 1 is accepted; one whose version reads otherwise, or that has none, is not. */
  lemma VersionExamples()
    ensures ValidHeader(XmlNode("SmartDevicesCgiConfig", map["Version" := "1"]))
    ensures !ValidHeader(XmlNode("SmartDevicesCgiConfig", map["Version" := "2"]))
    ensures !ValidHeader(XmlNode("SmartDevicesCgiConfig", map["Name" := "1"]))
  {
    VersionOfDigit('1');
    VersionOfDigit('2');
  }
}
