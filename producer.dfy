/** The variables of `main` in `server_usb`, updated in place as the
    program does: the device loop's result, then the `for(;;)` loop that
    samples one device per iteration and fills the 1249-byte batch buffer. */
module ServerUsb {
  import opened Bits
  import opened Collector
  import Devices

  /** The collection loop's variables: the batch array `bytes`, the bit
      accumulator `byte`, the counters `bits`, `index` and `dev_index`, the
      broker connection `socket_fd`, and the sink calls made so far. */
  class Producer {
    const config: Config
    const bytes: array<bv8>
    var byte: bv8
    var bits: int
    var index: int
    var devIndex: int
    var socketFd: int
    var events: seq<Event>

    /** The variables, as a value of the state machine. */
    function State(): Collector.State
      reads this, bytes
    {
      Collector.State(bytes[..], byte, bits, index, devIndex, socketFd)
    }

    ghost predicate Valid()
      reads this, bytes
    {
      bytes.Length == BufferSize && Collector.Valid(config, State())
    }

    /** The state on entry to the loop: the opened handles, `index` left at the
        number of devices found, `byte`, `bits` and `dev_index` at 0, no
        connection, and an uninitialised buffer whose contents are `stale`. */
    constructor (setup: Devices.Setup, toFile: bool, toHost: bool, stale: seq<bv8>)
      requires |setup.handles| > 0 && setup.index < BufferSize && |stale| == BufferSize
      ensures Valid() && fresh(bytes)
      ensures config == Config(setup.handles, toFile, toHost)
      ensures State() == Initial(stale, setup.index) && events == []
    {
      config := Config(setup.handles, toFile, toHost);
      bytes := new bv8[BufferSize](p => if 0 <= p < |stale| then stale[p] else 0);
      byte, bits, index, devIndex, socketFd := 0, 0, setup.index, 0, -1;
      events := [];
      new;
      assert bytes[..] == stale;
    }

    /** One iteration of the loop: `t` holds the two durations measured on
        the device `polled`, and the transmitter's reply should this
        iteration flush the buffer. */
    method Step(t: Tick) returns (polled: nat)
      requires Valid()
      modifies this, bytes
      ensures Valid()
      ensures polled == config.devices[old(devIndex)]
      ensures State() == Next(config, old(State()), t).0
      ensures events == old(events) + Next(config, old(State()), t).1
    {
      ghost var s := State();
      ghost var r := Next(config, s, t);
      polled := NextDevice();
      if t.t1 == t.t2 {
        assert State() == r.0;
        return;
      }
      ShiftBit(t.t1 > t.t2);
      if bits == 8 {
        StoreByte(t.reply);
      }
      assert State() == r.0;
    }

    /** Takes the device to sample and moves `dev_index` on, wrapping at `use_n`. */
    method NextDevice() returns (polled: nat)
      requires Valid()
      modifies this
      ensures polled == config.devices[old(devIndex)]
      ensures devIndex == (old(devIndex) + 1) % |config.devices|
      ensures byte == old(byte) && bits == old(bits) && index == old(index)
      ensures socketFd == old(socketFd) && events == old(events)
    {
      polled := config.devices[devIndex];
      devIndex := devIndex + 1;
      if devIndex == |config.devices| {
        devIndex := 0;
      }
    }

    /** Shifts one outcome into the accumulator. */
    method ShiftBit(bit: bool)
      modifies this
      ensures byte == ShiftIn(old(byte), bit) && bits == old(bits) + 1
      ensures index == old(index) && devIndex == old(devIndex)
      ensures socketFd == old(socketFd) && events == old(events)
    {
      ShiftInSteps(byte);
      byte := byte << 1;
      if bit {
        byte := byte | 1;
      }
      bits := bits + 1;
    }

    /** Stores a completed byte and, when that fills the buffer, hands the
        batch to the sinks and starts over at slot 0. */
    method StoreByte(reply: TxReply)
      requires bytes.Length == BufferSize && 0 <= index < BufferSize
      modifies this, bytes
      ensures bytes[..] == old(bytes[..])[old(index) := byte]
      ensures bits == 0 && byte == old(byte) && devIndex == old(devIndex)
      ensures index == (old(index) + 1) % BufferSize
      ensures old(index) + 1 < BufferSize ==> socketFd == old(socketFd) && events == old(events)
      ensures old(index) + 1 == BufferSize ==>
                (socketFd, events) ==
                  (Flush(config, bytes[..], old(socketFd), reply).0,
                   old(events) + Flush(config, bytes[..], old(socketFd), reply).1)
    {
      bytes[index] := byte;
      index := index + 1;
      bits := 0;
      if index == bytes.Length {
        EmitBatch(reply);
        index := 0;
      }
    }

    /** A full buffer goes to the file sink, if any, then to the transmitter,
        if any; a reply of -1 closes the connection and forgets it. */
    method EmitBatch(reply: TxReply)
      modifies this
      ensures (socketFd, events) ==
                (Flush(config, bytes[..], old(socketFd), reply).0,
                 old(events) + Flush(config, bytes[..], old(socketFd), reply).1)
      ensures byte == old(byte) && bits == old(bits) && index == old(index)
      ensures devIndex == old(devIndex)
    {
      var written := if config.toFile then [WroteFile(bytes[..])] else [];
      if config.toHost {
        var fd := socketFd;
        socketFd := reply.fd;
        if reply.status == -1 {
          events := events + (written + [Transmitted(bytes[..], fd), Closed(socketFd)]);
          socketFd := -1;
        } else {
          events := events + (written + [Transmitted(bytes[..], fd)]);
        }
      } else {
        events := events + written;
      }
    }

    /** The iterations `ticks` in a row, the model of `for(;;)` cut after
        `|ticks|` iterations; `polled` lists the device each one sampled. */
    method Collect(ticks: seq<Tick>) returns (polled: seq<nat>)
      requires Valid()
      modifies this, bytes
      ensures Valid()
      ensures State() == Run(config, old(State()), ticks).0
      ensures events == old(events) + Run(config, old(State()), ticks).1
      ensures polled == Schedule(config.devices, old(devIndex), |ticks|)
    {
      ghost var s0 := State();
      ghost var e0 := events;
      polled := [];
      var i := 0;
      while i < |ticks|
        invariant 0 <= i <= |ticks| && bytes.Length == BufferSize
        invariant State() == Run(config, s0, ticks[..i]).0
        invariant events == e0 + Run(config, s0, ticks[..i]).1
        invariant polled == Schedule(config.devices, s0.devIndex, i)
      {
        ghost var before := Run(config, s0, ticks[..i]);
        ghost var step := Next(config, before.0, ticks[i]);
        RunSnoc(config, s0, ticks, i);
        RunDevIndex(config, s0, ticks[..i]);
        ScheduleSnoc(config.devices, s0.devIndex, i);
        var p := Step(ticks[i]);
        AppendAssoc(e0, before.1, step.1);
        polled := polled + [p];
        i := i + 1;
      }
      assert ticks[..i] == ticks;
    }
  }

  lemma AppendAssoc(a: seq<Event>, b: seq<Event>, c: seq<Event>)
    ensures (a + b) + c == a + (b + c)
  {
  }

  /** What a run of the program amounts to: either the device loop aborted on
      a device it could not open, or the collection loop ran, sampled the
      devices `polled` in turn, made the sink calls `events` and ended with
      the loop variables `final`. */
  datatype Session =
    | OpenError(position: nat)
    | Served(devices: seq<nat>, polled: seq<nat>, final: Collector.State, events: seq<Event>)

  /** `main` from the device list on: select the devices, then run the
      collection loop for the iterations `ticks`. The bus has `vendors[p]` as
      the vendor of device `p`, `libusb_open` answers `openStatus[p]`, and
      the batch array initially holds `stale`. */
  method Serve(vendors: seq<int>, openStatus: seq<int>, toFile: bool, toHost: bool,
               stale: seq<bv8>, ticks: seq<Tick>) returns (r: Session)
    requires |openStatus| == |vendors| && |stale| == BufferSize
    requires Devices.AllOpen(vendors, openStatus) ==> |vendors| < BufferSize && Devices.NonHubs(vendors) != []
    ensures r.OpenError? <==> !Devices.AllOpen(vendors, openStatus)
    ensures r.OpenError? ==>
              r.position < |vendors| && vendors[r.position] != Devices.HubVendor &&
              openStatus[r.position] != 0 &&
              forall q :: 0 <= q < r.position && vendors[q] != Devices.HubVendor ==> openStatus[q] == 0
    ensures r.Served? ==>
              var run := Run(Config(Devices.NonHubs(vendors), toFile, toHost), Initial(stale, |vendors|), ticks);
              r.devices == Devices.NonHubs(vendors) && r.polled == Schedule(r.devices, 0, |ticks|) &&
              r.final == run.0 && r.events == run.1
  {
    var sel := Devices.SelectDevices(vendors, openStatus);
    if sel.OpenFailed? {
      return OpenError(sel.position);
    }
    var p := new Producer(sel.setup, toFile, toHost, stale);
    ghost var run := Run(p.config, p.State(), ticks);
    assert p.config == Config(Devices.NonHubs(vendors), toFile, toHost);
    assert p.State() == Initial(stale, |vendors|);
    var polled := p.Collect(ticks);
    assert p.State() == run.0 && p.events == [] + run.1;
    return Served(sel.setup.handles, polled, p.State(), p.events);
  }
}
