/** The simulated temperature sensor as one immutable state: the mode text,
    the temperature, the line buffer the device file serves, the two poll flags
    and the two integer attributes. Each handler of the module is a function
    from this state. */
module Simtemp {
  import opened CTypes
  import opened CString
  import Transfer
  import ModeAttr
  import Sampler
  import Render

  /** `POLLIN`, `POLLOUT`, `POLLRDNORM`, `POLLWRNORM`. */
  const POLLIN: bv32 := 0x0001
  const POLLOUT: bv32 := 0x0004
  const POLLRDNORM: bv32 := 0x0040
  const POLLWRNORM: bv32 := 0x0100

  /** `mode_buf`, `temp` (milli-degrees Celsius), `kernel_buffer` (the last
      printed line), the two poll flags, and the `sampling_ms` and
      `threshold_mC` attributes. */
  datatype Device = Device(mode: seq<char>, temp: int32, kbuf: seq<char>, canRead: bool, canWrite: bool, samplingMs: int32, thresholdMC: int32)

  predicate Wf(d: Device) {
    Sampler.ValidMode(d.mode) && |d.kbuf| == Transfer.BUF_SIZE
  }

  /** The module's static state when it is loaded. */
  function Init(): (d: Device)
    ensures Wf(d)
    ensures ModeAttr.Show(d.mode).text == "RAMP" && Sampler.Classify(d.mode) == Sampler.Ramp
    ensures forall i :: |"RAMP"| <= i < |d.mode| ==> d.mode[i] == NUL
    ensures d.temp == 0 && !d.canRead && !d.canWrite
    ensures d.samplingMs == 2000 && d.thresholdMC == 0
    ensures forall i :: 0 <= i < |d.kbuf| ==> d.kbuf[i] == NUL
  {
    var d := Device(ModeAttr.InitialMode(), 0, Nuls(Transfer.BUF_SIZE), false, false, 2000, 0);
    assert FoldCase(CStr(d.mode)) == FoldCase("RAMP");
    d
  }

  predicate TickDefined(d: Device) {
    Sampler.TickDefined(Sampler.Sensor(d.mode, d.temp))
  }

  /** The timer callback: advance the temperature by the mode, then print the
      timestamped line into `kernel_buffer`. */
  function Tick(d: Device, draw: uint32, stamp: Render.Stamp): (r: Device)
    requires Wf(d) && TickDefined(d)
    ensures Wf(r)
    ensures Sampler.Sensor(r.mode, r.temp) == Sampler.Tick(Sampler.Sensor(d.mode, d.temp), draw)
    ensures r.kbuf == PrintInto(d.kbuf, stamp, r.temp)
    ensures r.canRead == d.canRead && r.canWrite == d.canWrite
    ensures r.samplingMs == d.samplingMs && r.thresholdMC == d.thresholdMC
  {
    var s := Sampler.Tick(Sampler.Sensor(d.mode, d.temp), draw);
    Device(s.mode, s.temp, PrintInto(d.kbuf, stamp, s.temp), d.canRead, d.canWrite, d.samplingMs, d.thresholdMC)
  }

  /** `scnprintf` into the line buffer: the printed line and its terminator, then the older bytes. */
  function PrintInto(kbuf: seq<char>, stamp: Render.Stamp, temp: int32): (k: seq<char>)
    requires |kbuf| == Transfer.BUF_SIZE
    ensures |k| == Transfer.BUF_SIZE && Terminated(k) && CStr(k) == Render.Printed(stamp, temp)
    ensures var n := |Render.Printed(stamp, temp)|; k[n + 1..] == kbuf[n + 1..]
  {
    StrCpyInto(kbuf, Render.Printed(stamp, temp))
  }

  /** Writing the `mode` attribute. */
  function StoreMode(d: Device, input: seq<char>): (r: Device)
    requires Wf(d) && ModeAttr.StoreDefined(d.mode, input)
    ensures Wf(r)
    ensures ModeAttr.Show(r.mode).text == UntilStop(input[..Min(|input|, ModeAttr.TXT_BUF_SIZE)] + d.mode[Min(|input|, ModeAttr.TXT_BUF_SIZE)..])
    ensures forall i :: Min(|input|, ModeAttr.TXT_BUF_SIZE) <= i < ModeAttr.TXT_BUF_SIZE && i != |CStr(r.mode)| ==> r.mode[i] == d.mode[i]
    ensures forall i :: |CStr(r.mode)| < i < Min(|input|, ModeAttr.TXT_BUF_SIZE) ==> r.mode[i] == (if NUL in input[..i] then NUL else input[i])
    ensures r.temp == d.temp && r.kbuf == d.kbuf
    ensures r.canRead == d.canRead && r.canWrite == d.canWrite
    ensures r.samplingMs == d.samplingMs && r.thresholdMC == d.thresholdMC
  {
    d.(mode := ModeAttr.Store(d.mode, input).buf)
  }

  /** Reading the `mode` attribute. */
  function ShowMode(d: Device): (r: ModeAttr.Shown)
    requires Wf(d)
    ensures r.count == |r.text| < ModeAttr.TXT_BUF_SIZE
    ensures NUL !in r.text && r.text + [NUL] == d.mode[..|r.text| + 1]
  {
    ModeAttr.Show(d.mode)
  }

  /** `read` on the device file: a window of `kernel_buffer` from the file position. */
  function ReadFile(d: Device, off: nat, len: nat, notCopied: nat): (r: Transfer.ReadOut)
    requires Wf(d)
    requires Transfer.ValidRequest(off, len) && Transfer.ShortfallOk(off, len, notCopied)
    ensures off >= Transfer.BUF_SIZE ==> r.count == 0 && r.off == off && r.data == []
    ensures r.off == off + r.count
    ensures off < Transfer.BUF_SIZE ==> r.count + notCopied == Min(len, Transfer.BUF_SIZE - off)
    ensures off < Transfer.BUF_SIZE ==> r.count <= Transfer.BUF_SIZE - off && r.count <= len
    ensures off < Transfer.BUF_SIZE ==> r.data == d.kbuf[off..off + r.count]
  {
    Transfer.Read(d.kbuf, off, len, notCopied)
  }

  /** What `poll` reports, and the state after it. */
  datatype Polled = Polled(mask: bv32, dev: Device)

  /** `poll`: report each flag that is set, and clear it. */
  function Poll(d: Device): (r: Polled)
    ensures (r.mask & POLLIN != 0) <==> d.canRead
    ensures (r.mask & POLLRDNORM != 0) <==> d.canRead
    ensures (r.mask & POLLOUT != 0) <==> d.canWrite
    ensures (r.mask & POLLWRNORM != 0) <==> d.canWrite
    ensures r.mask & !(POLLIN | POLLRDNORM | POLLOUT | POLLWRNORM) == 0
    ensures !r.dev.canRead && !r.dev.canWrite
    ensures r.dev.mode == d.mode && r.dev.temp == d.temp && r.dev.kbuf == d.kbuf
    ensures r.dev.samplingMs == d.samplingMs && r.dev.thresholdMC == d.thresholdMC
  {
    var readBits: bv32 := if d.canRead then POLLIN | POLLRDNORM else 0;
    var writeBits: bv32 := if d.canWrite then POLLOUT | POLLWRNORM else 0;
    Polled(readBits | writeBits, d.(canRead := false, canWrite := false))
  }

  /** A flag set once is reported once: a second poll reports nothing. */
  lemma PollReportsOnce(d: Device)
    ensures Poll(Poll(d).dev).mask == 0
  {
  }

  /** Everything that changes the device state. */
  datatype Event =
    | TickEvent(draw: uint32, stamp: Render.Stamp)
    | StoreModeEvent(input: seq<char>)
    | SetSampling(ms: int32)
    | SetThreshold(mC: int32)
    | PollEvent

  /** One event; None when the C code's behaviour is undefined for it. */
  function Step(d: Device, e: Event): (r: Option<Device>)
    requires Wf(d)
    ensures r.None? <==> (e.TickEvent? && !TickDefined(d)) || (e.StoreModeEvent? && !ModeAttr.StoreDefined(d.mode, e.input))
    ensures r.Some? ==> Wf(r.value)
    ensures r.Some? ==> (r.value.canRead ==> d.canRead) && (r.value.canWrite ==> d.canWrite)
  {
    match e
    case TickEvent(draw, stamp) => if TickDefined(d) then Some(Tick(d, draw, stamp)) else None
    case StoreModeEvent(input) => if ModeAttr.StoreDefined(d.mode, input) then Some(StoreMode(d, input)) else None
    case SetSampling(ms) => Some(d.(samplingMs := ms))
    case SetThreshold(mC) => Some(d.(thresholdMC := mC))
    case PollEvent => Some(Poll(d).dev)
  }

  /** A sequence of events from `d`; None once one of them is undefined. */
  function Run(d: Device, es: seq<Event>): (r: Option<Device>)
    requires Wf(d)
    ensures r.Some? ==> Wf(r.value)
    ensures r.Some? ==> (r.value.canRead ==> d.canRead) && (r.value.canWrite ==> d.canWrite)
    decreases |es|
  {
    if |es| == 0 then Some(d)
    else
      match Step(d, es[0])
      case None => None
      case Some(next) => Run(next, es[1..])
  }

  /** Nothing in the module ever sets the poll flags, so from load on `poll`
      never reports the device readable or writable. */
  lemma NeverReady(es: seq<Event>)
    requires Run(Init(), es).Some?
    ensures Poll(Run(Init(), es).value).mask == 0
  {
  }

  /** The threshold attribute is stored but never consulted: a tick does the
      same whatever its value. So is the sampling attribute, which only feeds
      the timer period. */
  lemma TickIgnoresAttributes(d1: Device, d2: Device, draw: uint32, stamp: Render.Stamp)
    requires Wf(d1) && TickDefined(d1)
    requires d1.mode == d2.mode && d1.temp == d2.temp && d1.kbuf == d2.kbuf
    ensures Wf(d2) && TickDefined(d2)
    ensures Tick(d1, draw, stamp).mode == Tick(d2, draw, stamp).mode
    ensures Tick(d1, draw, stamp).temp == Tick(d2, draw, stamp).temp
    ensures Tick(d1, draw, stamp).kbuf == Tick(d2, draw, stamp).kbuf
  {
  }

  /** Reading the whole device file after a tick returns the new line, its
      terminator, and the bytes of older, longer lines after it. */
  lemma TickThenRead(d: Device, draw: uint32, stamp: Render.Stamp, len: nat)
    requires Wf(d) && TickDefined(d) && Render.ValidStamp(stamp)
    requires Transfer.BUF_SIZE <= len <= Transfer.MAX_RW_COUNT
    ensures var r := Tick(d, draw, stamp);
            var line := Render.Line(stamp, r.temp);
            ReadFile(r, 0, len, 0).data == line + [NUL] + d.kbuf[|line| + 1..]
  {
    var r := Tick(d, draw, stamp);
    assert Render.Printed(stamp, r.temp) == Render.Line(stamp, r.temp);
    ReadWholeBuffer(r.kbuf, d.kbuf, Render.Line(stamp, r.temp), len);
  }

  /** A whole-buffer read of a buffer holding `text`, its terminator, and then
      the old bytes of `prev`. */
  lemma ReadWholeBuffer(kbuf: seq<char>, prev: seq<char>, text: seq<char>, len: nat)
    requires |kbuf| == Transfer.BUF_SIZE && |prev| == Transfer.BUF_SIZE
    requires Transfer.BUF_SIZE <= len <= Transfer.MAX_RW_COUNT
    requires Terminated(kbuf) && CStr(kbuf) == text && kbuf[|text| + 1..] == prev[|text| + 1..]
    ensures Transfer.Read(kbuf, 0, len, 0).data == text + [NUL] + prev[|text| + 1..]
  {
    assert kbuf == kbuf[..|text| + 1] + kbuf[|text| + 1..];
    assert kbuf[..|text| + 1] == text + [NUL];
  }

  /** Writing an unrecognised mode and letting the timer fire once yields the
      NORMAL temperature, and the mode then reads back as "NORMAL". */
  lemma UnknownModeHeals(d: Device, text: seq<char>, draw: uint32, stamp: Render.Stamp)
    requires Wf(d) && |text| < ModeAttr.TXT_BUF_SIZE && '\n' !in text && NUL !in text
    requires FoldCase(text) !in {FoldCase("RAMP"), FoldCase("NOISY"), FoldCase("NORMAL")}
    ensures ModeAttr.StoreDefined(d.mode, text + "\n")
    ensures var d1 := StoreMode(d, text + "\n");
            TickDefined(d1) &&
            var d2 := Tick(d1, draw, stamp);
            d2.temp == Sampler.NORMAL_TEMP && ShowMode(d2).text == Sampler.NORMAL_TEXT
  {
    ModeAttr.EchoRoundTrip(d.mode, text);
    var d1 := StoreMode(d, text + "\n");
    assert CStr(d1.mode) == text;
    assert Sampler.Classify(d1.mode) == Sampler.Unknown;
  }
}
