/** Device selection in `main`: every device on the bus is visited once, root
    hubs are skipped, and every other device is opened and becomes a timing source. */
module Devices {

  /** Vendor id of the Linux Foundation root hubs, which are never sampled. */
  const HubVendor: int := 0x1d6b

  /** Outcome of the device loop: the positions (in the bus's device list) of
      the opened devices, in the order of `devhs`, and the value the loop
      leaves in `index`. */
  datatype Setup = Setup(handles: seq<nat>, index: nat)

  /** `libusb_open` failed on the device at `position`; the process exits. */
  datatype Selection = Selected(setup: Setup) | OpenFailed(position: nat)

  /** Every device that is not a root hub opens (`libusb_open` status 0). */
  predicate AllOpen(vendors: seq<int>, openStatus: seq<int>)
    requires |openStatus| == |vendors|
  {
    forall p :: 0 <= p < |vendors| && vendors[p] != HubVendor ==> openStatus[p] == 0
  }

  /** Positions of the devices that are not root hubs, in ascending order. */
  function NonHubs(vendors: seq<int>): (r: seq<nat>)
    ensures |r| <= |vendors|
    ensures forall k :: 0 <= k < |r| ==> r[k] < |vendors| && vendors[r[k]] != HubVendor
    ensures forall k, l :: 0 <= k < l < |r| ==> r[k] < r[l]
  {
    if vendors == [] then []
    else
      var init := vendors[..|vendors| - 1];
      assert forall p :: 0 <= p < |init| ==> init[p] == vendors[p];
      NonHubs(init) + (if vendors[|vendors| - 1] == HubVendor then [] else [|vendors| - 1])
  }

  /** Every device that is not a root hub is selected. */
  lemma {:induction false} NonHubsComplete(vendors: seq<int>, p: nat)
    requires p < |vendors| && vendors[p] != HubVendor
    ensures p in NonHubs(vendors)
    decreases |vendors|
  {
    if p < |vendors| - 1 {
      var init := vendors[..|vendors| - 1];
      NonHubsComplete(init, p);
    }
  }

  /** The loop over the device list (`libusb_open` status 0 means success).
      It ends with `use_n` handles, one per non-hub device in list order, and
      with `index` equal to the number `n` of devices found. */
  method SelectDevices(vendors: seq<int>, openStatus: seq<int>) returns (r: Selection)
    requires |openStatus| == |vendors|
    ensures r.Selected? <==> AllOpen(vendors, openStatus)
    ensures r.Selected? ==> r.setup.handles == NonHubs(vendors) && r.setup.index == |vendors|
    ensures r.Selected? ==> |r.setup.handles| <= |vendors|
    ensures r.OpenFailed? ==>
              r.position < |vendors| && vendors[r.position] != HubVendor &&
              openStatus[r.position] != 0 &&
              forall q :: 0 <= q < r.position && vendors[q] != HubVendor ==> openStatus[q] == 0
  {
    var n := |vendors|;
    var devhs := new nat[n];
    var useN := 0;
    var index := 0;
    while index < n
      invariant 0 <= useN <= index <= n
      invariant devhs[..useN] == NonHubs(vendors[..index])
      invariant forall q :: 0 <= q < index && vendors[q] != HubVendor ==> openStatus[q] == 0
    {
      assert vendors[..index + 1][..index] == vendors[..index];
      if vendors[index] == HubVendor {
        index := index + 1;
        continue;
      }
      if openStatus[index] != 0 {
        return OpenFailed(index);
      }
      devhs[useN] := index;
      useN := useN + 1;
      index := index + 1;
    }
    assert vendors[..index] == vendors;
    return Selected(Setup(devhs[..useN], index));
  }
}
