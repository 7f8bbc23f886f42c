/** The mode branch of the sensor's periodic timer callback: how the next
    temperature (in milli-degrees Celsius) follows from the mode text. The
    random draw is an input. */
module Sampler {
  import opened CTypes
  import opened CString
  import ModeAttr

  /** RAMP adds this many milli-degrees per tick. */
  const RAMP_STEP: int := 100

  /** NORMAL holds the temperature at 25 degrees. */
  const NORMAL_TEMP: int := 25000

  /** The mode text a tick writes when the mode is not recognised. */
  const NORMAL_TEXT: seq<char> := "NORMAL"

  /** The mode a buffer names, compared without regard to ASCII case. */
  datatype Mode = Ramp | Noisy | Normal | Unknown

  /** The buffer's text is `name`, ignoring ASCII case. */
  predicate Names(buf: seq<char>, name: seq<char>)
    requires Terminated(buf)
  {
    FoldCase(CStr(buf)) == FoldCase(name)
  }

  /** The chain of `strcasecmp` tests in the callback, in source order. */
  function Classify(buf: seq<char>): (m: Mode)
    requires Terminated(buf)
    ensures m == Ramp <==> Names(buf, "RAMP")
    ensures m == Noisy <==> Names(buf, "NOISY")
    ensures m == Normal <==> Names(buf, "NORMAL")
    ensures m == Unknown <==> !Names(buf, "RAMP") && !Names(buf, "NOISY") && !Names(buf, "NORMAL")
  {
    CaseEqSpec(buf, Lit("RAMP"));
    CaseEqSpec(buf, Lit("NOISY"));
    CaseEqSpec(buf, Lit("NORMAL"));
    if CaseEq(buf, Lit("RAMP")) then Ramp
    else if CaseEq(buf, Lit("NOISY")) then Noisy
    else if CaseEq(buf, Lit("NORMAL")) then Normal
    else Unknown
  }

  /** The state a tick reads and writes. */
  datatype Sensor = Sensor(mode: seq<char>, temp: int32)

  predicate ValidMode(buf: seq<char>) {
    |buf| == ModeAttr.TXT_BUF_SIZE && Terminated(buf)
  }

  /** The tick is defined: the mode buffer is terminated, and in RAMP mode
      `temp += 100` does not overflow `int` (undefined behaviour in C). */
  predicate TickDefined(s: Sensor) {
    ValidMode(s.mode) && (Names(s.mode, "RAMP") ==> s.temp + RAMP_STEP <= INT32_MAX)
  }

  /** One pass through the mode branch of the timer callback. */
  function Tick(s: Sensor, draw: uint32): (r: Sensor)
    requires TickDefined(s)
    ensures ValidMode(r.mode)
    ensures Names(s.mode, "RAMP") ==> r == Sensor(s.mode, s.temp + RAMP_STEP)
    ensures Names(s.mode, "NOISY") ==> r == Sensor(s.mode, U32ToInt(draw))
    ensures Names(s.mode, "NORMAL") ==> r == Sensor(s.mode, NORMAL_TEMP)
    ensures Classify(s.mode) == Unknown ==>
      CStr(r.mode) == NORMAL_TEXT && r.temp == NORMAL_TEMP && r.mode[|NORMAL_TEXT| + 1..] == s.mode[|NORMAL_TEXT| + 1..]
    ensures Classify(r.mode) != Unknown
  {
    match Classify(s.mode)
    case Ramp => Sensor(s.mode, s.temp + RAMP_STEP)
    case Noisy => Sensor(s.mode, U32ToInt(draw))
    case Normal => Sensor(s.mode, NORMAL_TEMP)
    case Unknown =>
      var m := StrCpyInto(s.mode, NORMAL_TEXT);
      assert Classify(m) == Normal;
      Sensor(m, NORMAL_TEMP)
  }

  /** A tick always leaves a recognised mode, so the next tick never rewrites
      the mode text: the mode stays fixed from the second tick on. */
  lemma SecondTickKeepsMode(s: Sensor, draw1: uint32, draw2: uint32)
    requires TickDefined(s) && TickDefined(Tick(s, draw1))
    ensures Tick(Tick(s, draw1), draw2).mode == Tick(s, draw1).mode
  {
  }

  /** In NOISY, NORMAL and unrecognised modes the new temperature does not
      depend on the old one. */
  lemma TickForgetsTemp(mode: seq<char>, t1: int32, t2: int32, draw: uint32)
    requires ValidMode(mode) && !Names(mode, "RAMP")
    ensures Tick(Sensor(mode, t1), draw) == Tick(Sensor(mode, t2), draw)
  {
  }

  /** An unrecognised mode is replaced by "NORMAL", which is what `mode_show` then reports. */
  lemma UnknownModeReadsBackNormal(s: Sensor, draw: uint32)
    requires TickDefined(s) && Classify(s.mode) == Unknown
    ensures ModeAttr.Show(Tick(s, draw).mode).text == NORMAL_TEXT
    ensures Tick(s, draw).temp == NORMAL_TEMP
  {
  }

  /** A mode written in any letter case through the attribute selects that mode:
      "ramp\n" makes the next tick add 100. */
  lemma LowerCaseRampSelectsRamp(mode: seq<char>, temp: int32, draw: uint32)
    requires |mode| == ModeAttr.TXT_BUF_SIZE && temp + RAMP_STEP <= INT32_MAX
    ensures ModeAttr.StoreDefined(mode, "ramp\n")
    ensures var m := ModeAttr.Store(mode, "ramp\n").buf;
            ValidMode(m) && Tick(Sensor(m, temp), draw).temp == temp + RAMP_STEP
  {
    ModeAttr.EchoRoundTrip(mode, "ramp");
    assert "ramp" + "\n" == "ramp\n";
    var m := ModeAttr.Store(mode, "ramp\n").buf;
    assert CStr(m) == "ramp";
    assert FoldCase("ramp") == FoldCase("RAMP");
  }
}
