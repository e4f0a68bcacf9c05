# Coyote capture gate, probe frame and option reading, in Dafny

Coyote is a small packet-capture tool built on a capture library and a
packet-decoding library. It lists interfaces, captures frames on one and
prints their Ethernet, ARP, IP, TCP and UDP headers. It can also send one
synthetic probe frame. The header decoding, device handling and sending all
happen inside those libraries. This project models the logic that Coyote
itself implements:

- **The packet-count gate** (`CaptureGate`). The capture callback
  `device_OnPacketArrival` runs it on every frame. The gate compares the
  static counter `packetCount` with `maxPacketCount`, where -1 means no limit.
  A frame that meets the reached limit is refused and a stop and close of the
  device is requested. Any other frame increments the counter and goes on to
  decoding. The gate is described on values: `Step` is one arrival and `Run`
  is k arrivals. Its behaviour over any number of arrivals is proved there.
  The class `Gate` holds the mutable fields and a ghost history of verdicts.
  `OnArrival` is proved to follow `Step` and to keep the count-limit
  properties.
- **The probe frame** (`Probe`). `GetRandomPacket` builds a 200-byte buffer
  of random bytes. It then overwrites the first four bytes with
  `DE AD BE EF` by `Array.Copy`, which is modelled as an in-place method
  with its exceptions.
- **Option reading** (`Options`). The filter expression is `args[2]` when
  `args[1]` is `-t`. The packet limit comes from the argument after the first
  `-n`, or after `--num-packets` when there is no `-n`. `Array.IndexOf` is
  modelled and proved to give the first index.
- **C# `int` arithmetic** (`Int32`). `packetCount++` is unchecked 32-bit
  arithmetic, so it wraps around on overflow.

Inputs that the program takes from outside are parameters of the model:

- The random bytes from `Random.NextBytes` are the `fill` argument of
  `GetRandomPacket`.
- `int.Parse` is the `parse` argument, a function from text to an optional
  `int`. `None` stands for the exception that `int.Parse` throws.
- The stop and close calls on the device are the `stopRequested` flag.

Behaviour of the source that the contracts make explicit:

- `maxPacketCount` is whatever `int.Parse` returns. A negative limit other
  than -1 makes the gate refuse every frame.
- The lookup never falls back to `--num-packets` when `-n` is present. If
  `-n` is the last argument, the limit stays -1 even when
  `--num-packets 5` appears earlier.
- The option search covers every argument, including the device index and
  the filter text.
- In no-limit mode, the counter wraps to a negative value after 2^31 - 1
  frames. With -1 the gate never consults the count, so every frame is still
  processed.

## Model

| member | source | states |
|---|---|---|
| `Int32.Wrap` | Program.cs:125 | The result of C# unchecked `int` arithmetic is the exact value when it fits, and always agrees with it modulo 2^32. |
| `Int32.WrapAdd` | Program.cs:125 | Adding k to an already wrapped value gives the same `int` as adding k to the exact value and wrapping once. |
| `Int32.Increment` | Program.cs:125 | `packetCount++` gives the exact successor wrapped into the `int` range, so `int.MaxValue` steps to `int.MinValue`. |
| `Int32.AdvanceIsWrap` | Program.cs:125 | k increments in a row give the exact sum wrapped once, which is the exact sum while it fits. |
| `CaptureGate.Step` | Program.cs:117-125 | One arrival is processed iff the gate does not refuse it, i.e. no limit is set or the count is below the limit. A processed frame always changes the count and a refused one never does. A processed frame increments the count as a C# `int`, by exactly one when a limit is set. A refused frame changes nothing except the stop request. The limit never changes. |
| `CaptureGate.Run` | Program.cs:114-125 | k arrivals give k verdicts, keep the limit, and leave the count advanced by exactly the number of processed frames. |
| `CaptureGate.UnlimitedRun` | Program.cs:117-125 | With `maxPacketCount == -1`, every one of k arrivals is processed. The count has been incremented k times as a C# `int`, and the limit and stop flag are unchanged, so no stop is requested. |
| `CaptureGate.LimitedRun` | Program.cs:117-125 | With a limit set, the i-th arrival is processed exactly when count + i is below the limit. The count rises to the limit and stops there without wrapping. A stop is requested exactly when an arrival goes past the limit. |
| `CaptureGate.RefusedForever` | Program.cs:117-121 | A gate that refuses a frame refuses every later frame. The count stays unchanged, and the state after any arrival is the same state with the stop requested. |
| `CaptureGate.RefusalIsFinal` | Program.cs:117-121 | Over any run, a stop is requested exactly when some frame was refused. After one refused frame every later frame is refused, and the final state still refuses. |
| `CaptureGate.CountLimit` | Program.cs:117-125 | From a fresh gate with limit N >= 0, arrival i is processed iff i < N. After k arrivals exactly min(k, N) frames are processed and the count equals that number. A stop is requested iff k > N, so N = 0 processes nothing. |
| `CaptureGate.NoLimitProcessesAll` | Program.cs:10 | From the default limit -1, all k arrivals are processed and none is refused. No stop is requested. The count is k wrapped as a C# `int`, so it equals k while k fits. |
| `CaptureGate.Gate.constructor` | Program.cs:9-10 | A session starts with count 0, the given limit, no stop requested and an empty history. |
| `CaptureGate.Gate.OnArrival` | Program.cs:114-125 | The call returns true iff the frame is not refused, i.e. no limit is set or the count is below it. A processed frame increments the count and leaves the stop flag alone. A refused frame leaves the count and sets the stop flag. The flag is set iff some frame was refused, and after a refusal every frame is refused. With no limit every frame is processed. With a limit N >= 0 the count never decreases, and only the first N frames are processed. |
| `Probe.ArrayCopy` | Program.cs:217 | `Array.Copy` throws ArgumentOutOfRange for a negative length and ArgumentException for a length longer than either array. In both cases nothing changes. Otherwise the destination becomes the first `length` source elements followed by its own untouched rest. |
| `Probe.GetRandomPacket` | Program.cs:209-220 | The result is a fresh array of exactly 200 bytes. Bytes 0..3 are `DE AD BE EF`, and bytes 4..199 are the random fill unchanged. |
| `Options.IndexOf` | Program.cs:56-58 | `Array.IndexOf` returns -1 iff the value is absent. Otherwise it returns an index holding the value with no earlier occurrence. |
| `Options.ReadFilter` | Program.cs:44-49 | The filter is `args[2]` when there are at least three arguments and `args[1]` is `-t`. Otherwise it is the empty string, and a non-empty filter always comes from `args`. |
| `Options.ReadPacketLimit` | Program.cs:56-60 | At the first `-n`, the limit is the parse of the next argument, or -1 when `-n` is last. This holds even when `--num-packets` is also present. Without `-n`, the same rule applies at the first `--num-packets`. With neither option the limit is -1. A parse failure is reported with its text. |
| `Options.ParseLimit` | Program.cs:60 | When `int.Parse` throws, the failure is reported with its text. Otherwise the limit is the parsed value. |
| `Options.Configure` | Program.cs:44-60 | The set-up yields the filter and the packet limit, both under the same rules as `ReadFilter` and `ReadPacketLimit`. That covers `-n` taking precedence, `--num-packets` when there is no `-n`, a trailing option leaving -1, and -1 when neither option is given. A gate is made iff the limit parsed. That gate is fresh, in its initial state, and has the parsed limit, or -1. |

## Left out

- Header decoding (`Packet.ParsePacket`, `Extract<IPPacket>`, the TCP and UDP payload casts, Program.cs:127-207) happens inside the decoding library and only prints fields. It is not part of this model, and neither are the mislabelled PSH and SYN output lines.
- Device enumeration, the `-l` listing, opening, filtering, starting and stopping capture, and sending (Program.cs:15-40, 52-54, 62-90, 105-111) are capture-library I/O. The device stop and close are represented only by the `stopRequested` flag.
- The duration option and its timer (Program.cs:92-103) are left out: a floating-point duration, a timer thread and a process exit.
- The `-s` send-mode choice (Program.cs:64) and its send and exception reporting are left out because they are I/O.
- Parsing the device index from `args[0]` (Program.cs:43) and selecting the device are left out.
- The random source is replaced by the `fill` input, which stands for the whole 200-byte output of `NextBytes`.
- `int.Parse` is a parameter and not a decimal parser.
- Concurrency between the timer callback and the capture callback is not modelled. Arrivals are sequential calls.
- The static field `device` is never assigned, because `Main` declares a local of the same name. The stop call in the callback would therefore dereference null. The model treats the stop request abstractly as a flag.
- Once the stop is requested, the capture library stops delivering frames. The model still lets arrivals be called, and each one is refused.
- `Probe.ArrayCopy`: the null-argument, rank and element-type checks of `Array.Copy` are not modelled, because Dafny arrays are non-null and typed.
