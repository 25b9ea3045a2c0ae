# server_usb de-jitter collector, modelled in Dafny

`server_usb` is the entropybroker producer that draws randomness from the
timing jitter of USB devices. It times a descriptor request (`timed_poke`)
twice in a row on one device and compares the two durations:

- equal durations are discarded;
- otherwise the comparison gives one bit, and eight bits make a byte;
- bytes fill a 1249-byte batch buffer;
- a full buffer goes to an output file and/or to the broker, and then the
  write index starts over.

Before the loop, `main` walks the USB device list. It skips the Linux
Foundation root hubs (vendor `0x1d6b`) and opens every other device as a
timing source. The loop polls the opened devices round-robin.

The model has five modules:

- `Timing` (`timing.dfy`): the nanosecond duration formula of `timed_poke`.
- `Devices` (`devices.dfy`): the device-selection loop, as a method over the
  vendor ids of the bus and the status `libusb_open` returns for each device.
- `Bits` (`bits.dfy`) and `Collector` (`collector.dfy`): the collection loop
  as a state machine over values.
  - `Next` is one iteration of `for(;;)`. `Run` is a finite prefix of
    iterations.
  - A `Tick` carries the two durations one iteration measures. It also
    carries the transmitter's reply, which is used only if that iteration
    flushes.
  - The file writer, the transmitter and `close` are recorded as `Event`s.
  - `Bytes(h)` groups the comparison outcomes `h` into bytes. Each byte
    packs eight consecutive outcomes, earliest outcome most significant.
- `ServerUsb` (`producer.dfy`): the loop's variables as the class
  `Producer`.
  - The 1249-byte `bytes` array is updated in place.
  - `Step` and `Collect` are imperative and are proved equal to `Next` and
    `Run`.
  - `Serve` chains device selection and collection the way `main` does.

The main result is `RunConsistent`. Take a run that starts on a byte
boundary at slot `i0`. Byte `j` collected on the way sits in slot
`(i0 + j) mod 1249` until it is overwritten, and the slots not yet reached
keep their old contents.

From this, `FlushedBatch` derives what every flushed batch holds. The source
does not reset `index` after the device loop, so collection starts at slot
`n`, the number of devices on the bus. The first batch is therefore:

- the `n` uninitialised bytes the array started with (`stale`);
- followed by the first `1249 - n` collected bytes.

Every later batch is exactly the 1249 most recent bytes. The model keeps this
behaviour.

## Model

| member | source | states |
|---|---|---|
| Timing.TimedPoke | server_usb.cpp:39-41 | the duration is the second reading minus the first, both taken as nanosecond instants |
| Timing.TimedPokeSign | server_usb.cpp:31-42 | for normalized clock readings the duration is positive iff the second reading is later, zero iff the readings are equal, negative iff the clock went backwards |
| Devices.NonHubs | server_usb.cpp:178-181 | the selected positions are in range, are never root hubs (vendor 0x1d6b), are strictly increasing, and number at most `n` |
| Devices.NonHubsComplete | server_usb.cpp:178-181 | every device whose vendor is not 0x1d6b is selected |
| Devices.SelectDevices | server_usb.cpp:163-183 | the loop succeeds iff every non-hub device opens; then the handles are exactly the non-hub devices in bus order, `use_n <= n` and `index == n`; otherwise it stops at the first non-hub device that fails to open |
| Bits.ShiftIn | server_usb.cpp:201-203 | the outcome becomes the lowest bit and every other bit moves one place towards the top, the old top bit being dropped |
| Bits.ShiftInValue | server_usb.cpp:201-203 | as a number the new byte is `(old * 2) mod 256` plus the outcome |
| Bits.AccumulateBits | server_usb.cpp:201-207 | after shifting in a run of outcomes, the low bits are the last outcomes in order and the high bits are what is left of the old byte |
| Bits.PackBits | server_usb.cpp:201-207 | outcome `i` of a packed group of eight is bit `i` counted from the most significant one |
| Bits.LastEight | server_usb.cpp:201-207 | once eight or more outcomes are shifted in, the accumulator is the packing of the last eight, whatever it held before |
| Bits.UnpackPack | server_usb.cpp:201-207 | unpacking a packed group of eight gives the group back |
| Bits.PackUnpack | server_usb.cpp:201-207 | packing the eight bits of a byte gives the byte back |
| Bits.BytesSnocPartial | server_usb.cpp:205 | an outcome that leaves the count short of a multiple of eight adds no byte |
| Bits.BytesSnocComplete | server_usb.cpp:205-207 | an outcome that makes the count a multiple of eight adds one byte, the packing of the last eight outcomes |
| Collector.Outcome | server_usb.cpp:198-203 | equal durations give no bit; otherwise one bit, set iff the first duration is the longer one |
| Collector.Flush | server_usb.cpp:210-226 | exactly these sink calls, in this order: the full buffer to the file sink iff a file is configured, then to the transmitter iff a host is configured, then a close of the socket iff the transmitter replies -1 and nothing after it, so a failed batch is not retried; the socket is then forgotten (-1), otherwise the descriptor the transmitter left is kept |
| Collector.Next | server_usb.cpp:190-227 | bounds on `bits`, `index` and `dev_index` are kept; `dev_index` advances by one modulo `use_n` even on a tie; a tie changes nothing else and calls no sink; otherwise the byte is shifted; the eighth bit stores it at `index` and advances `index` modulo 1249; filling the last slot flushes through `Flush` |
| Collector.Run | server_usb.cpp:190-246 | any number of iterations keeps the loop's bounds |
| Collector.RunDevIndex | server_usb.cpp:189-196 | after `k` iterations `dev_index` is `(d0 + k) mod use_n`: devices are polled round-robin |
| Collector.RunBatchSize | server_usb.cpp:210-218 | every batch handed to a sink is 1249 bytes long |
| Collector.NextConsistent | server_usb.cpp:198-208 | one iteration keeps the relation between the state and the outcomes collected so far |
| Collector.CompletedAccumulator | server_usb.cpp:201-207 | the accumulator after the eighth bit of a group is the byte the group packs to |
| Collector.RunConsistent | server_usb.cpp:190-227 | after any run from a byte boundary: `bits` is the number of pending outcomes, the accumulator holds them, `index` is `i0 + m` mod 1249 after `m` bytes, byte `j` is in slot `(i0 + j)` mod 1249 unless overwritten, and unreached slots are unchanged |
| Collector.BufferAtFlush | server_usb.cpp:205-226 | right after the iteration that fills the buffer, the buffer is the expected batch |
| Collector.FlushedBatch | server_usb.cpp:155-226 | every batch a sink receives is the `n` stale bytes followed by the first `1249 - n` collected bytes for the first batch, and the 1249 most recent bytes after that |
| ServerUsb.Producer.constructor | server_usb.cpp:70-75 | the loop starts with `byte`, `bits` and `dev_index` at 0, `socket_fd` at -1, `index` where the device loop left it, and the array's stale contents |
| ServerUsb.Producer.Step | server_usb.cpp:193-227 | one iteration on the array-based variables produces the state and sink calls of `Next`, and polls the device `dev_index` pointed at |
| ServerUsb.Producer.NextDevice | server_usb.cpp:193-196 | the device polled is the one at `dev_index`, which then advances modulo `use_n` |
| ServerUsb.Producer.ShiftBit | server_usb.cpp:201-205 | the accumulator becomes `ShiftIn` of the old one and `bits` goes up by one |
| ServerUsb.Producer.StoreByte | server_usb.cpp:207-226 | the byte is written in place at `index`; `index` advances modulo 1249 and `bits` resets; only filling the last slot calls the sinks |
| ServerUsb.Producer.EmitBatch | server_usb.cpp:212-224 | the sink calls and the new `socket_fd` are those of `Flush` on the array's contents |
| ServerUsb.Producer.Collect | server_usb.cpp:190-246 | a run of iterations on the array-based variables produces the state and sink calls of `Run`, and polls the devices round-robin from `dev_index` |
| ServerUsb.Serve | server_usb.cpp:163-246 | `main` aborts iff some non-hub device fails to open, naming the first one that failed; otherwise it polls the non-hub devices round-robin from the first one, and its sink calls and final variables are those of `Run` started at slot `n` |

## Left out

- The hardware and the clock are not modelled. `libusb_init`, `libusb_get_device_list`, `libusb_get_descriptor`, `libusb_open` and `clock_gettime` become inputs: vendor ids and open statuses per device, and two durations per iteration.
- Process scaffolding is not modelled: command-line parsing, `help`, `daemon`, the pid file, the signal handler and `exit`.
- The `show_bps` rate report is not modelled. It is floating-point wall-clock arithmetic and console output.
- `emit_buffer_to_file` and `message_transmit_entropy_data` are sinks. Their bodies are not part of this model. The transmitter is represented only by the descriptor it leaves in `socket_fd` and its return value.
- Logging through `dolog` is not modelled.
- data_logger.h and auth.h are not part of this model. They hold only declarations.
- The closing `libusb_close` loop after `for(;;)` is not modelled, because control never reaches it.
- Collector.Run: models a finite prefix of the infinite loop, one `Tick` per iteration.
- Timing.TimedPoke: computes over unbounded integers, so it does not model the wrap-around of the 64-bit `long` product `dummy * 1000000000`. With a 64-bit `long` that product overflows only for readings about 292 years apart; with a 32-bit `long`, readings more than about 2 seconds apart already overflow.
- Collector.Outcome: compares the durations as integers. The source first converts them to `double` in `gen_entropy_data`. That conversion is exact for durations below 2^53 nanoseconds (about 104 days), so equality and ordering agree there.
- ServerUsb.Serve: when every non-hub device opens, requires at least one non-hub device. With `use_n == 0` the source reads `devhs[0]`, which was never set.
- ServerUsb.Serve: when every non-hub device opens, requires fewer than 1249 devices on the bus. The first byte is stored at `bytes[n]`, which is outside the array when `n >= 1249`. A failed open is modelled for any number of devices.
- ServerUsb.Producer.constructor: requires the same two bounds, for the same reasons.
- `stale` stands for the unspecified initial contents of the uninitialised stack array `bytes`.
