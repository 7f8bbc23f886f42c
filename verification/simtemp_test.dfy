/** The earlier test module: a high-resolution timer that fires a fixed number
    of times, a 64-byte character device that can be written and read back,
    and a sysfs attribute whose store handler accepts anything. */
module SimtempTest {
  import opened CTypes
  import opened CString
  import Transfer

  /** The value `hrtimer_counter` is given when the module loads. */
  const INITIAL_COUNT: uint64 := 10

  /** What the timer handler asks of the timer core. */
  datatype Verdict = Restart | NoRestart

  /** The handler's answer and the counter it leaves behind. */
  datatype Fired = Fired(verdict: Verdict, counter: uint64)

  /** The timer handler: while the counter is positive, count down and ask to be
      re-armed; at zero, stop and leave the counter alone. */
  function HandleTimer(counter: uint64): (r: Fired)
    ensures r.verdict == Restart <==> counter > 0
    ensures r.verdict == Restart ==> r.counter + 1 == counter
    ensures r.verdict == NoRestart ==> r.counter == 0
    ensures r.counter <= counter
  {
    if counter > 0 then Fired(Restart, counter - 1) else Fired(NoRestart, counter)
  }

  /** How many times the handler asks to be re-armed when it is left to run
      from `counter` until it stops. */
  function Restarts(counter: uint64): (n: nat)
    ensures n == counter
    decreases counter
  {
    var f := HandleTimer(counter);
    if f.verdict == Restart then 1 + Restarts(f.counter) else 0
  }

  /** The timer core driving the handler: call it until it declines a restart.
      Returns how often the handler ran and the counter it ends with. */
  method RunTimer(counter: uint64) returns (calls: nat, final: uint64)
    ensures calls == counter + 1
    ensures final == 0
  {
    var c := counter;
    calls := 0;
    var going := true;
    while going
      invariant going ==> calls + c == counter
      invariant !going ==> calls == counter + 1 && c == 0
      decreases c, going
    {
      var f := HandleTimer(c);
      calls := calls + 1;
      c := f.counter;
      going := f.verdict == Restart;
    }
    final := c;
  }

  /** From the value set at load the timer fires eleven times: ten restarts, then a stop. */
  lemma LoadedTimerRestartsTenTimes()
    ensures Restarts(Init().counter) == 10
    ensures HandleTimer(0) == Fired(NoRestart, 0)
  {
  }

  /** The test module's state: `timer_buff` and `hrtimer_counter`. */
  datatype TestDevice = TestDevice(timerBuff: seq<char>, counter: uint64)

  predicate Wf(d: TestDevice) {
    |d.timerBuff| == Transfer.BUF_SIZE
  }

  /** The state after loading: a zeroed buffer and the counter at ten. */
  function Init(): (d: TestDevice)
    ensures Wf(d) && d.counter == INITIAL_COUNT
    ensures forall i :: 0 <= i < |d.timerBuff| ==> d.timerBuff[i] == NUL
  {
    TestDevice(Nuls(Transfer.BUF_SIZE), INITIAL_COUNT)
  }

  /** `read` on the test device: a window of `timer_buff` from the file position. */
  function Read(d: TestDevice, off: nat, len: nat, notCopied: nat): (r: Transfer.ReadOut)
    requires Wf(d) && Transfer.ValidRequest(off, len) && Transfer.ShortfallOk(off, len, notCopied)
    ensures off >= Transfer.BUF_SIZE ==> r.count == 0 && r.off == off && r.data == []
    ensures r.off == off + r.count
    ensures off < Transfer.BUF_SIZE ==> r.count + notCopied == Min(len, Transfer.BUF_SIZE - off)
    ensures off < Transfer.BUF_SIZE ==> r.count <= Transfer.BUF_SIZE - off && r.count <= len
    ensures off < Transfer.BUF_SIZE ==> r.data == d.timerBuff[off..off + r.count]
  {
    Transfer.Read(d.timerBuff, off, len, notCopied)
  }

  /** `write` on the test device: the user bytes go into `timer_buff` from the
      file position. The result holds the new `timer_buff`, the count and the
      new position; the counter is not touched. */
  function Write(d: TestDevice, off: nat, data: seq<char>, notCopied: nat): (r: Transfer.WriteOut)
    requires Wf(d) && Transfer.ValidRequest(off, |data|) && Transfer.ShortfallOk(off, |data|, notCopied)
    ensures |r.buf| == Transfer.BUF_SIZE
    ensures off >= Transfer.BUF_SIZE ==> r.buf == d.timerBuff && r.count == 0 && r.off == off
    ensures r.off == off + r.count
    ensures off < Transfer.BUF_SIZE ==> r.off <= Transfer.BUF_SIZE && r.count <= |data|
    ensures off < Transfer.BUF_SIZE ==> r.count + notCopied == Min(|data|, Transfer.BUF_SIZE - off)
    ensures off < Transfer.BUF_SIZE ==> forall i :: off <= i < r.off ==> r.buf[i] == data[i - off]
    ensures off < Transfer.BUF_SIZE ==> forall i :: r.off <= i < r.off + notCopied ==> r.buf[i] == NUL
    ensures forall i :: 0 <= i < Transfer.BUF_SIZE && (i < off || i >= r.off + notCopied) ==> r.buf[i] == d.timerBuff[i]
  {
    Transfer.Write(d.timerBuff, off, data, notCopied)
  }

  /** Writing bytes and reading the same span back, both copies complete,
      returns the written bytes, as many as fit in the buffer. */
  lemma WriteThenRead(d: TestDevice, off: nat, data: seq<char>)
    requires Wf(d) && off < Transfer.BUF_SIZE && |data| <= Transfer.MAX_RW_COUNT
    ensures var w := Write(d, off, data, 0);
            var r := Read(TestDevice(w.buf, d.counter), off, |data|, 0);
            r.count == w.count && r.off == w.off && r.data == data[..w.count]
  {
    Transfer.WriteThenRead(d.timerBuff, off, data);
  }

  /** At offset 0, a write of at most 64 bytes reads back in full. */
  lemma ShortWriteReadsBack(d: TestDevice, data: seq<char>)
    requires Wf(d) && |data| <= Transfer.BUF_SIZE
    ensures var w := Write(d, 0, data, 0);
            w.count == |data| && Read(TestDevice(w.buf, d.counter), 0, |data|, 0).data == data
  {
    WriteThenRead(d, 0, data);
    assert data[..|data|] == data;
  }

  /** The `dummy` attribute's store handler: it only logs the text, and
      reports the whole write as consumed, whatever it holds. */
  function DummyStore(buffer: seq<char>, count: nat): (n: nat)
    ensures n == count
  {
    count
  }
}
