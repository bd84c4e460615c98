/** Edge-triggered hub discovery: one scan suggests every hub that became discoverable. `norm` is the
    normal form of an address (lower case without spaces); any function will do. */
module Discovery {
  import opened Wrappers

  datatype Device = Device(id: string, ieee: Option<string>)

  /** The normalised addresses of the devices that have one. */
  function Available(norm: string -> string, devices: seq<Device>): set<string> {
    if devices == [] then {}
    else
      var last := |devices| - 1;
      Available(norm, devices[..last]) +
      (if devices[last].ieee.Some? then {norm(devices[last].ieee.value)} else {})
  }

  /** The first device of every address outside `known`, in device order. */
  function FirstNew(norm: string -> string, devices: seq<Device>, known: set<string>): seq<Device> {
    if devices == [] then []
    else
      var d, earlier := devices[|devices| - 1], devices[..|devices| - 1];
      FirstNew(norm, earlier, known) +
      (if d.ieee.Some? && norm(d.ieee.value) !in known + Available(norm, earlier) then [d] else [])
  }

  datatype Scan = Scan(configured: set<string>, devices: seq<Device>)

  /** Hubs one could add now. */
  function Discoverable(norm: string -> string, s: Scan): set<string> {
    Available(norm, s.devices) - s.configured
  }

  /** The prompted set a scan leaves: forget configured hubs, add those suggested, forget hubs that are
      gone. */
  function AfterScan(norm: string -> string, prompted: set<string>, s: Scan): set<string> {
    (prompted - s.configured + Discoverable(norm, s)) * (Available(norm, s.devices) + s.configured)
  }

  class HubDiscovery {
    /** Addresses already suggested. */
    var prompted: set<string>

    constructor ()
      ensures prompted == {}
    {
      prompted := {};
    }

    /** One completed scan; `hasParent` is whether the integration is set up. */
    method DiscoverHubs(norm: string -> string, hasParent: bool, configured: set<string>, devices: seq<Device>)
      returns (suggested: seq<Device>)
      modifies this
      ensures !hasParent ==> suggested == [] && prompted == old(prompted)
      ensures hasParent ==> suggested == FirstNew(norm, devices, configured + old(prompted))
      ensures hasParent ==> prompted == AfterScan(norm, old(prompted), Scan(configured, devices))
    {
      suggested := [];
      if !hasParent {
        return;
      }
      ghost var known := configured + prompted;
      prompted := prompted - configured;
      var available: set<string> := {};
      for i := 0 to |devices|
        invariant available == Available(norm, devices[..i])
        invariant prompted == known - configured + (available - configured)
        invariant suggested == FirstNew(norm, devices[..i], known)
      {
        assert devices[..i + 1][..i] == devices[..i];
        if devices[i].ieee.None? {
          continue;
        }
        var address := norm(devices[i].ieee.value);
        var before := available;
        available := available + {address};
        if address in configured {
          continue;
        }
        if address in prompted {
          continue;
        }
        prompted := prompted + {address};
        suggested := suggested + [devices[i]];
      }
      assert devices[..|devices|] == devices;
      prompted := prompted * (available + configured);
    }
  }

  // ---------- what is suggested ----------

  /** The addresses of a list of suggestions, in order. */
  function Addresses(norm: string -> string, devices: seq<Device>): (r: seq<string>)
    requires forall d :: d in devices ==> d.ieee.Some?
    ensures |r| == |devices|
  {
    seq(|devices|, i requires 0 <= i < |devices| => norm(devices[i].ieee.value))
  }

  lemma {:induction false} FirstNewHasAddresses(norm: string -> string, devices: seq<Device>, known: set<string>)
    ensures forall d :: d in FirstNew(norm, devices, known) ==> d.ieee.Some? && d in devices
  {
    if devices != [] {
      var earlier := devices[..|devices| - 1];
      FirstNewHasAddresses(norm, earlier, known);
      assert forall x :: x in earlier ==> x in devices;
    }
  }

  lemma AddressesAppend(norm: string -> string, devices: seq<Device>, d: Device)
    requires d.ieee.Some? && forall x :: x in devices ==> x.ieee.Some?
    ensures Addresses(norm, devices + [d]) == Addresses(norm, devices) + [norm(d.ieee.value)]
  {
  }

  /** No entry of the sequence occurs twice. */
  predicate NoRepeats(s: seq<string>) {
    forall i, j :: 0 <= i < j < |s| ==> s[i] != s[j]
  }

  lemma AppendKeepsNoRepeats(s: seq<string>, a: string)
    requires NoRepeats(s) && a !in s
    ensures NoRepeats(s + [a]) && forall x :: x in s + [a] <==> x in s || x == a
  {
  }

  /** Exactly the available addresses outside `known` are suggested, each once, even if the device
      list repeats it. */
  lemma {:induction false} FirstNewIsExact(norm: string -> string, devices: seq<Device>, known: set<string>)
    ensures forall d :: d in FirstNew(norm, devices, known) ==> d.ieee.Some?
    ensures forall a :: a in Addresses(norm, FirstNew(norm, devices, known)) <==> a in Available(norm, devices) && a !in known
    ensures NoRepeats(Addresses(norm, FirstNew(norm, devices, known)))
  {
    FirstNewHasAddresses(norm, devices, known);
    if devices != [] {
      var d, earlier := devices[|devices| - 1], devices[..|devices| - 1];
      FirstNewIsExact(norm, earlier, known);
      var before := FirstNew(norm, earlier, known);
      if d.ieee.Some? && norm(d.ieee.value) !in known + Available(norm, earlier) {
        AddressesAppend(norm, before, d);
        AppendKeepsNoRepeats(Addresses(norm, before), norm(d.ieee.value));
      } else {
        assert FirstNew(norm, devices, known) == before;
      }
    }
  }

  /** The positions are those of the devices suggested: in device order, each with a new address that no
      earlier device has. */
  ghost predicate FirstDevices(norm: string -> string, devices: seq<Device>, known: set<string>, at: seq<nat>) {
    && (forall i :: 0 <= i < |at| ==> at[i] < |devices| && IsFirst(norm, devices, known, at[i]))
    && (forall i, j :: 0 <= i < j < |at| ==> at[i] < at[j])
  }

  ghost predicate IsFirst(norm: string -> string, devices: seq<Device>, known: set<string>, k: nat)
    requires k < |devices|
  {
    && devices[k].ieee.Some? && norm(devices[k].ieee.value) !in known
    && forall e :: 0 <= e < k && devices[e].ieee.Some? ==> norm(devices[e].ieee.value) != norm(devices[k].ieee.value)
  }

  lemma {:induction false} AvailableHas(norm: string -> string, devices: seq<Device>, address: string)
    ensures address in Available(norm, devices) <==>
      exists e :: 0 <= e < |devices| && devices[e].ieee.Some? && norm(devices[e].ieee.value) == address
    decreases |devices|
  {
    if devices != [] {
      var last := |devices| - 1;
      AvailableHas(norm, devices[..last], address);
      assert forall e :: 0 <= e < last ==> devices[..last][e] == devices[e];
    }
  }

  /** Of several devices with one new address the first is suggested, and suggestions come in device
      order. */
  lemma {:induction false} SuggestsFirstDevices(norm: string -> string, devices: seq<Device>, known: set<string>)
    returns (at: seq<nat>)
    ensures FirstDevices(norm, devices, known, at) && |at| == |FirstNew(norm, devices, known)|
    ensures forall i :: 0 <= i < |at| ==> FirstNew(norm, devices, known)[i] == devices[at[i]]
    decreases |devices|
  {
    if devices == [] {
      at := [];
    } else {
      var last := |devices| - 1;
      var d, earlier := devices[last], devices[..last];
      var before := SuggestsFirstDevices(norm, earlier, known);
      forall i | 0 <= i < |before|
        ensures IsFirst(norm, devices, known, before[i])
      {
        assert IsFirst(norm, earlier, known, before[i]);
      }
      at := before;
      if d.ieee.Some? {
        AvailableHas(norm, earlier, norm(d.ieee.value));
        if norm(d.ieee.value) !in known + Available(norm, earlier) {
          at := before + [last];
          assert forall e :: 0 <= e < last ==> earlier[e] == devices[e];
        }
      }
    }
  }

  // ---------- whole runs of scans ----------

  /** The prompted set after a run of completed scans. */
  function PromptedAfter(norm: string -> string, scans: seq<Scan>): set<string> {
    if scans == [] then {} else AfterScan(norm, PromptedAfter(norm, scans[..|scans| - 1]), scans[|scans| - 1])
  }

  /** The prompted set after a scan is what was discoverable then, whatever came before. */
  lemma PromptedIsDiscoverable(norm: string -> string, scans: seq<Scan>)
    requires scans != []
    ensures PromptedAfter(norm, scans) == Discoverable(norm, scans[|scans| - 1])
  {
  }

  /** In every run a scan suggests exactly the hubs that are discoverable now and were not at the end
      of the previous completed scan. */
  lemma SuggestionsAreEdges(norm: string -> string, scans: seq<Scan>, now: Scan, address: string)
    ensures forall d :: d in FirstNew(norm, now.devices, now.configured + PromptedAfter(norm, scans)) ==> d.ieee.Some?
    ensures address in Addresses(norm, FirstNew(norm, now.devices, now.configured + PromptedAfter(norm, scans))) <==>
      address in Discoverable(norm, now) && (scans == [] || address !in Discoverable(norm, scans[|scans| - 1]))
  {
    FirstNewIsExact(norm, now.devices, now.configured + PromptedAfter(norm, scans));
    if scans != [] {
      PromptedIsDiscoverable(norm, scans);
    }
  }
}
