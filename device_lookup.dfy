/**
 * The Individual Control page of the Smart Devices program: for each node
 * of the discovered network, the configured device it is shown as (by
 * device ID, or by the base type in the ID's low byte), and the label
 * made from the node's DescriptiveName variable.
 */
module DeviceLookup {
  import opened Wrappers
  import opened JipTypes
  import opened DeviceConfig
  import opened CStrings
  import SmartEncoder

  /** Whether the configured device `d` stands for a node with device ID `id`. */
  predicate Matches(d: Device, id: nat)
  {
    match d.lookup
    case ById => d.deviceId == id
    case ByBaseType => d.baseType == id % 256
  }

  /** The index of the last configured device that matches `id`: every later one does not, and None means none does. */
  function LastMatch(devices: seq<Device>, id: nat): (r: Option<nat>)
    ensures r.Some? ==> r.value < |devices| && Matches(devices[r.value], id)
    ensures r.Some? ==> forall k :: r.value < k < |devices| ==> !Matches(devices[k], id)
    ensures r.None? ==> forall k :: 0 <= k < |devices| ==> !Matches(devices[k], id)
  {
    if devices == [] then None
    else if Matches(devices[|devices| - 1], id) then Some(|devices| - 1)
    else LastMatch(devices[..|devices| - 1], id)
  }

  /**
   * The lookup loop. It runs over every device: the `break` after a match
   * leaves only the `switch`, so a later match replaces an earlier one.
   */
  method FindDevice(devices: seq<Device>, id: nat) returns (found: Option<nat>)
    ensures found == LastMatch(devices, id)
  {
    found := None;
    var i := 0;
    while i < |devices|
      invariant 0 <= i <= |devices|
      invariant found == LastMatch(devices[..i], id)
    {
      assert devices[..i + 1][..i] == devices[..i];
      match devices[i].lookup {
        case ById =>
          if devices[i].deviceId == id {
            found := Some(i);
          }
        case ByBaseType =>
          if devices[i].baseType == id % 256 {
            found := Some(i);
          }
      }
      i := i + 1;
    }
    assert devices[..|devices|] == devices;
  }

  // ---- the menu ----

  /**
   * A node of the discovered network: its device ID, its address as
   * `inet_ntop` writes it, and its DescriptiveName variable once read, or
   * None when it has no `Node` MiB or no such variable.
   */
  datatype NetworkNode = NetworkNode(deviceId: nat, address: string, descriptiveName: Option<VarValue>)

  /** One `DeviceMenu` call: the configured device (its index), the label and the address. */
  datatype MenuEntry = MenuEntry(device: nat, currentValue: string, address: string)

  /** The 255-character buffer the label is printed into. */
  const LABEL_BUFFER: nat := 255

  /** Every DescriptiveName label fits the buffer with its terminator. */
  predicate LabelsFit(nodes: seq<NetworkNode>)
  {
    forall i :: 0 <= i < |nodes| && nodes[i].descriptiveName.Some? ==>
      |SmartEncoder.DescriptiveLabel(nodes[i].descriptiveName.value)| < LABEL_BUFFER
  }

  /** A node is listed when a configured device matches it and it has a DescriptiveName variable. */
  predicate Listed(devices: seq<Device>, n: NetworkNode)
  {
    LastMatch(devices, n.deviceId).Some? && n.descriptiveName.Some?
  }

  /** The entry a listed node gets. */
  function EntryFor(devices: seq<Device>, n: NetworkNode): MenuEntry
    requires Listed(devices, n)
  {
    MenuEntry(LastMatch(devices, n.deviceId).value, SmartEncoder.DescriptiveLabel(n.descriptiveName.value), n.address)
  }

  /** The entries of the page, one per listed node, in network order. */
  function MenuEntries(devices: seq<Device>, nodes: seq<NetworkNode>): seq<MenuEntry>
    decreases |nodes|
  {
    if nodes == [] then []
    else
      var rest := MenuEntries(devices, nodes[1..]);
      if Listed(devices, nodes[0]) then [EntryFor(devices, nodes[0])] + rest else rest
  }

  /** The label as `sprintf` leaves it in the 255-character buffer. */
  method PrintLabel(v: VarValue) returns (currentValue: string)
    requires |SmartEncoder.DescriptiveLabel(v)| < LABEL_BUFFER
    ensures currentValue == SmartEncoder.DescriptiveLabel(v)
  {
    var acCurrentValue := new char[LABEL_BUFFER];
    var text := SmartEncoder.DescriptiveLabel(v);
    var n := Sprintf(acCurrentValue, 0, text);
    currentValue := acCurrentValue[..n];
  }

  /**
   * The Individual Control loop: every node, the device lookup, and for a
   * matched node with a DescriptiveName variable the label and one menu
   * entry; an unmatched node, or one without the variable, is skipped.
   */
  method IndividualMenu(devices: seq<Device>, nodes: seq<NetworkNode>) returns (entries: seq<MenuEntry>)
    requires LabelsFit(nodes)
    ensures entries == MenuEntries(devices, nodes)
  {
    entries := [];
    var i := 0;
    while i < |nodes|
      invariant 0 <= i <= |nodes|
      invariant MenuEntries(devices, nodes) == entries + MenuEntries(devices, nodes[i..])
    {
      var node := nodes[i];
      assert nodes[i..][0] == node && nodes[i..][1..] == nodes[i + 1..];
      var device := FindDevice(devices, node.deviceId);
      if device.None? {
        // not handling this device ID
        i := i + 1;
        continue;
      }
      if node.descriptiveName.Some? {
        var currentValue := PrintLabel(node.descriptiveName.value);
        entries := entries + [MenuEntry(device.value, currentValue, node.address)];
      }
      i := i + 1;
    }
  }

  // ---- properties of the lookup and the menu ----

  /** A device configured by base type matches every node whose ID has that low byte, whatever the upper bytes. */
  lemma {:induction false} BaseTypeIgnoresUpperBytes(devices: seq<Device>, id: nat, upper: nat)
    requires forall k :: 0 <= k < |devices| ==> devices[k].lookup == ByBaseType
    ensures LastMatch(devices, id) == LastMatch(devices, id % 256 + 256 * upper)
    decreases |devices|
  {
    if devices != [] {
      assert (id % 256 + 256 * upper) % 256 == id % 256;
      BaseTypeIgnoresUpperBytes(devices[..|devices| - 1], id, upper);
    }
  }

  /** The menu of a concatenation of node lists is the concatenation of their menus. */
  lemma {:induction false} MenuEntriesAppend(devices: seq<Device>, a: seq<NetworkNode>, b: seq<NetworkNode>)
    ensures MenuEntries(devices, a + b) == MenuEntries(devices, a) + MenuEntries(devices, b)
    decreases |a|
  {
    if a == [] {
      assert a + b == b;
    } else {
      assert (a + b)[0] == a[0];
      assert (a + b)[1..] == a[1..] + b;
      MenuEntriesAppend(devices, a[1..], b);
    }
  }

  /** A menu has an entry for exactly the listed nodes: every entry is some listed node's entry, and every listed node has its entry. */
  lemma {:induction false} MenuEntriesExactlyListed(devices: seq<Device>, nodes: seq<NetworkNode>)
    ensures |MenuEntries(devices, nodes)| <= |nodes|
    ensures forall e :: e in MenuEntries(devices, nodes) ==>
      exists j :: 0 <= j < |nodes| && Listed(devices, nodes[j]) && e == EntryFor(devices, nodes[j])
    ensures forall j :: 0 <= j < |nodes| && Listed(devices, nodes[j]) ==> EntryFor(devices, nodes[j]) in MenuEntries(devices, nodes)
    decreases |nodes|
  {
    if nodes != [] {
      var tail := nodes[1..];
      MenuEntriesAppend(devices, [nodes[0]], tail);
      assert [nodes[0]] + tail == nodes;
      MenuEntriesExactlyListed(devices, tail);
      var rest := MenuEntries(devices, tail);
      forall e | e in MenuEntries(devices, nodes)
        ensures exists j :: 0 <= j < |nodes| && Listed(devices, nodes[j]) && e == EntryFor(devices, nodes[j])
      {
        if e in rest {
          var j :| 0 <= j < |tail| && Listed(devices, tail[j]) && e == EntryFor(devices, tail[j]);
          assert nodes[j + 1] == tail[j];
        } else {
          assert Listed(devices, nodes[0]) && e == EntryFor(devices, nodes[0]);
        }
      }
      forall j | 0 <= j < |nodes| && Listed(devices, nodes[j])
        ensures EntryFor(devices, nodes[j]) in MenuEntries(devices, nodes)
      {
        if j > 0 {
          assert nodes[j] == tail[j - 1];
        }
      }
    }
  }
}
