# nxp_simtemp in Dafny

This is a model of the simulated temperature sensor kernel module `nxp_simtemp`
and of its earlier test module `nxp_simtemp-test`.

- **The sensor module.** It keeps three things:
  - a mode text (`RAMP`, `NOISY` or `NORMAL`) in a 10-byte buffer;
  - a temperature in milli-degrees Celsius;
  - a 64-byte line buffer.

  A periodic timer advances the temperature according to the mode. It then prints a
  timestamped line into the line buffer. The device file serves that buffer to
  `read`. `poll` reports two flags and clears them. A sysfs attribute lets user
  space write and read the mode text.
- **The test module.** It has a timer that counts down from ten, a 64-byte device
  that can be written and read back, and an attribute whose store handler accepts
  anything.

The model is functional. Each handler is a pure function from an immutable state
record. Inputs the kernel supplies are parameters:
- the random draw;
- the wall-clock time of a tick;
- how many bytes a user copy fails to transfer.

C behaviour is written out explicitly:
- `int` wrap-around on the `u32` to `int` conversion;
- division that truncates toward zero;
- NUL padding by `strncpy`;
- `strcspn` and `strcasecmp` on terminated buffers;
- `printf`'s `%0<width>d` (sign first, zeros after it);
- the 64-byte cut of `scnprintf`.

Behaviour that is undefined in C is a precondition on the primitive operation:
- `mode_store` followed by `strcspn` running past the end of the mode buffer;
- signed overflow of `temp += 100`.

In the device-level `Simtemp.Step` and `Simtemp.Run`, such an event yields `None`.

Modules, in dependency order:

| module | file | what it holds |
|---|---|---|
| `CTypes` | `ctypes.dfy` | C integer widths, truncating `/` and `%`, `Option` |
| `CString` | `cstring.dfy` | terminated byte buffers: `strncpy`, `strcspn`, `strcpy`, `strcasecmp` |
| `Decimal` | `decimal.dfy` | `%d` / `%0<w>d` text of integers and reading digit strings back |
| `Transfer` | `transfer.dfy` | the bounded offset copy between a 64-byte buffer and user space |
| `ModeAttr` | `modeattr.dfy` | `mode_store` / `mode_show` on the 10-byte mode buffer |
| `Sampler` | `sampler.dfy` | the mode branch of the timer callback |
| `Render` | `render.dfy` | the `scnprintf` line with timestamp and temperature |
| `Simtemp` | `simtemp.dfy` | the whole sensor state, its handlers, events and traces |
| `SimtempTest` | `simtemp_test.dfy` | the test module: countdown timer, read/write device, dummy attribute |

The module has no ring buffer of history entries, no threshold alert that
wakes readers and no read that drains a history.

In the code, `kernel_buffer` holds only the last line, and `read` is an ordinary
offset read over it. `threshold_mC` is stored but never consulted. No path sets
`can_read` or `can_write`. `Simtemp.NeverReady` and `Simtemp.TickIgnoresAttributes`
state the consequences.

When `copy_from_user` transfers fewer bytes than asked, the kernel fills the
destination bytes it could not copy with zeros. `Transfer.Write` includes this
fill. So a short write changes the `notCopied` bytes after the ones it reports,
besides the `count` bytes it reports.

## Model

| member | source | states |
|---|---|---|
| CTypes.U32ToInt | kernel/nxp_simtemp.c:67 | storing a `u32` random value in `int` keeps it modulo 2^32, and gives a negative temperature exactly when the draw is above `INT_MAX` |
| CTypes.CDiv | kernel/nxp_simtemp.c:85 | `temp/1000` truncates toward zero: for negative temperatures the quotient lies between `temp/1000` and 0, not below |
| CTypes.CMod | kernel/nxp_simtemp.c:85 | `temp%1000` satisfies `temp == (temp/1000)*1000 + temp%1000` and takes the sign of `temp` |
| CString.CStr | kernel/nxp_simtemp.c:31-32 | the C string of a terminated buffer (what `strcpy` copies and `strlen` counts) is the NUL-free prefix before the first terminator |
| CString.StrNCpy | kernel/nxp_simtemp.c:23 | `strncpy(dst, src, n)` copies `src` up to its first NUL, pads the rest of the first `n` bytes with NUL, and leaves bytes from `n` on untouched |
| CString.FirstStop | kernel/nxp_simtemp.c:24 | `strcspn(s, "\n")` is the index of the first newline or NUL, with no such byte before it |
| CString.UntilStop | kernel/nxp_simtemp.c:24 | the text before that index is a prefix of the buffer holding neither a newline nor a NUL |
| CString.StrCpyInto | kernel/nxp_simtemp.c:73 | `strcpy` of a NUL-free text into a larger buffer leaves exactly that text as the buffer's C string, and bytes after its terminator unchanged |
| CString.Lit | kernel/nxp_simtemp.c:64-75 | a string literal is its text followed by one terminator, so its C string is the text itself |
| CString.CaseEqSpec | kernel/nxp_simtemp.c:64-68 | the byte-by-byte `strcasecmp(a, b) == 0` holds exactly when the two C strings are equal after ASCII lower-casing, in both directions |
| Decimal.Dec | kernel/nxp_simtemp.c:85 | `%d` of a non-negative value is a non-empty digit string without a leading zero whose value is the number |
| Decimal.DecLength | kernel/nxp_simtemp.c:85 | a value below 10^k is printed in at most k digits |
| Decimal.FormatInt | kernel/nxp_simtemp.c:78-85 | `%0<w>d` gives a field at least `w` wide: digits denoting the value, or a minus sign and digits denoting its magnitude |
| Transfer.ToCopy | kernel/nxp_simtemp.c:137 | for a position inside the buffer, `to_copy` is the request or what remains of the buffer, whichever is smaller, and never passes its end |
| Transfer.Read | kernel/nxp_simtemp.c:134-152 | at or past byte 64 a read returns 0 and keeps the position. Otherwise count plus shortfall is `min(len, 64 - off)`, the position advances by the count and stays within 64, and the user gets exactly `buf[off..off+count]` |
| Transfer.Write | kernel/nxp_simtemp-test.c:128-144 | at or past byte 64 a write returns 0 and changes nothing. Otherwise count plus shortfall is `min(len, 64 - off)`, the position advances by the count, the copied bytes land at `[off, off+count)`, the uncopied ones become NUL, and every other byte is unchanged |
| Transfer.WriteThenRead | kernel/nxp_simtemp-test.c:109-144 | a fully copied write followed by a fully copied read of the same span returns the written bytes that fit, with the same count and position |
| Transfer.ConsecutiveReads | kernel/nxp_simtemp.c:141-151 | reading on from where a read stopped continues the byte stream: the two results concatenate to the buffer from the first position on |
| ModeAttr.InitialMode | kernel/nxp_simtemp.c:13 | the mode buffer starts as 10 bytes holding the C string "RAMP", with every byte after it zero |
| ModeAttr.Store | kernel/nxp_simtemp.c:19-26 | returns `min(len, 10)`. Leaves a terminated buffer whose text has no newline and is the copied input over the old bytes, cut at the first newline or NUL. Every byte from the count on, except the terminator, is the old byte. Every byte between the terminator and the count is the input byte, or NUL once the input has had a NUL, as `strncpy` pads |
| ModeAttr.Show | kernel/nxp_simtemp.c:28-33 | `mode_show` copies the buffer's text up to its first NUL and returns that length, always below 10 |
| ModeAttr.EchoRoundTrip | kernel/nxp_simtemp.c:19-33 | writing up to nine bytes plus a newline is always defined, returns the written length, and reads back as exactly the written text, whatever the buffer held |
| ModeAttr.ShortStoreShowsStaleTail | kernel/nxp_simtemp.c:22-24 | a short write without a newline leaves the old bytes after it, and they read back appended to the written text |
| ModeAttr.LongStoreUndefined | kernel/nxp_simtemp.c:22-24 | ten bytes with no newline or NUL among them leave no terminator for `strcspn` to stop at |
| ModeAttr.NineByteStoreUndefined | kernel/nxp_simtemp.c:19-26 | whatever the buffer held, a nine-byte write after "ABCDEFGH\nX" also leaves the buffer without newline or NUL, because the stale 'X' sits after the copied bytes |
| ModeAttr.FullStore | kernel/nxp_simtemp.c:19-26 | a ten-byte write with no NUL and a newline replaces the whole buffer and puts the terminator where the newline was |
| ModeAttr.StoreBounded | kernel/nxp_simtemp.c:19-26 | the corrected store returns the same count and always leaves a terminated buffer |
| ModeAttr.StoreBoundedShow | kernel/nxp_simtemp.c:19-33 | the corrected store reads back as exactly the written line cut to nine bytes, never with a newline or stale bytes |
| Sampler.Classify | kernel/nxp_simtemp.c:64-70 | the `strcasecmp` chain selects RAMP, NOISY or NORMAL exactly when the mode text equals that name ignoring ASCII case, and falls through exactly when it equals none |
| Sampler.Tick | kernel/nxp_simtemp.c:63-75 | RAMP adds 100 and keeps the mode. NOISY takes the draw as an `int`. NORMAL sets 25000. Any other text becomes "NORMAL" with 25000 and the bytes after the new terminator kept. Afterwards the mode is always recognised |
| Sampler.SecondTickKeepsMode | kernel/nxp_simtemp.c:70-75 | after one tick the coercion branch is never taken again, so the mode text no longer changes |
| Sampler.TickForgetsTemp | kernel/nxp_simtemp.c:66-69 | outside RAMP the new temperature does not depend on the old one |
| Sampler.UnknownModeReadsBackNormal | kernel/nxp_simtemp.c:70-75 | after a tick on an unrecognised mode, the mode reads back as "NORMAL" and the temperature is 25000 |
| Sampler.LowerCaseRampSelectsRamp | kernel/nxp_simtemp.c:64-65 | writing "ramp\n" selects RAMP: the next tick adds 100 |
| Render.Scnprintf | kernel/nxp_simtemp.c:78 | `scnprintf` into a buffer of `size` bytes leaves a prefix of the formatted text: the whole text when it fits, otherwise exactly `size - 1` characters |
| Render.StampLength | kernel/nxp_simtemp.c:78-84 | the timestamp of a calendar time in range always takes 23 characters |
| Render.TempFieldLength | kernel/nxp_simtemp.c:78-85 | `%03d.%dC` of a 32-bit temperature takes at most 14 characters |
| Render.LineFits | kernel/nxp_simtemp.c:78-85 | for a calendar time in range and any 32-bit temperature, the line has at most 50 characters and no NUL, so `scnprintf` never cuts it |
| Render.Printed | kernel/nxp_simtemp.c:78-85 | what lands before the terminator in `kernel_buffer` is the line as `scnprintf` cuts it to 63 characters. It is NUL-free, and it is the whole line for a calendar time in range |
| Render.TempFieldMisread | kernel/nxp_simtemp.c:78-85 | as written, 25050 mC prints as "025.50C", which reads as 25500 mC, and -25050 mC prints as "-25.-50C", which is not a number |
| Render.TempFieldReadsBackIff | kernel/nxp_simtemp.c:78-85 | as written, a non-negative temperature's field reads back as the temperature if and only if its thousandths are 0 or at least 100 |
| Render.NegativeFieldUnreadable | kernel/nxp_simtemp.c:78-85 | as written, every negative temperature with non-zero thousandths prints a field that does not read as a number |
| Render.FractionReadsBack | kernel/nxp_simtemp.c:78-85 | the unpadded fraction digits of a temperature, read as tenths, hundredths or thousandths, give the temperature back exactly when the thousandths are 0 or at least 100 |
| Render.FieldReading | kernel/nxp_simtemp.c:78-85 | a field `<w>.<f>C` with one to three fraction digits reads as `w` degrees plus `f` tenths, hundredths or thousandths |
| Render.FieldUnreadable | kernel/nxp_simtemp.c:78-85 | a field whose fraction starts with a minus sign does not read as a number, with or without a sign before the whole part |
| Render.TempFieldFixedRoundTrip | kernel/nxp_simtemp.c:78-85 | the corrected field (`%03d.%03d` of the magnitude, with a sign) reads back as exactly the temperature, for every temperature |
| Simtemp.Init | kernel/nxp_simtemp.c:9-48 | at load the mode reads "RAMP", followed only by zero bytes, and selects RAMP. The temperature is 0, both poll flags are clear, sampling is 2000 ms, the threshold 0 and the line buffer all zero |
| Simtemp.Tick | kernel/nxp_simtemp.c:56-86 | a timer tick changes mode and temperature as the mode branch does, prints the new line into the line buffer, and leaves the flags and both attributes unchanged |
| Simtemp.PrintInto | kernel/nxp_simtemp.c:78-85 | after the print, the buffer's C string is the printed line and the bytes after its terminator are those of older lines |
| Simtemp.StoreMode | kernel/nxp_simtemp.c:19-26 | writing the mode attribute changes only the mode, which then reads back as the input's line over the old bytes. From the count on, every byte but the terminator keeps its old value. Between the terminator and the count lie the copied input bytes, NUL after an input NUL |
| Simtemp.ShowMode | kernel/nxp_simtemp.c:28-33 | reading the mode attribute returns the buffer's NUL-free text up to its first NUL, shorter than 10 bytes, and that length |
| Simtemp.ReadFile | kernel/nxp_simtemp.c:134-152 | `read` on the device returns `kernel_buffer[off..off+count]`. The count plus the bytes `copy_to_user` left uncopied is `min(len, 64 - off)`. The position advances by the count. At or past byte 64 it returns nothing and keeps the position |
| Simtemp.Poll | kernel/nxp_simtemp.c:157-176 | POLLIN and POLLRDNORM are reported exactly when `can_read` was set, and POLLOUT and POLLWRNORM exactly when `can_write` was. No other bit is reported. Both flags are clear afterwards and nothing else changes |
| Simtemp.PollReportsOnce | kernel/nxp_simtemp.c:164-175 | a second poll right after the first reports nothing: each set flag is reported at most once |
| Simtemp.Step | kernel/nxp_simtemp.c:19-176 | an event is undefined exactly when it is a tick that would overflow or a store that overruns the mode buffer. Otherwise the device stays well formed and no flag becomes set |
| Simtemp.Run | kernel/nxp_simtemp.c:19-176 | along any sequence of events the device stays well formed and no poll flag ever goes from clear to set |
| Simtemp.NeverReady | kernel/nxp_simtemp.c:14-15 | from load, after any sequence of defined events, `poll` reports nothing |
| Simtemp.TickIgnoresAttributes | kernel/nxp_simtemp.c:38-43 | two devices that differ only in their poll flags and their sampling and threshold attributes tick to the same mode, temperature and line buffer |
| Simtemp.TickThenRead | kernel/nxp_simtemp.c:78-152 | after a tick, reading the whole device file returns the new line, its terminator, and the remaining bytes of the older contents |
| Simtemp.ReadWholeBuffer | kernel/nxp_simtemp.c:134-152 | reading all 64 bytes of a buffer that holds a text and its terminator over older bytes returns the text, the NUL and those older bytes |
| Simtemp.UnknownModeHeals | kernel/nxp_simtemp.c:19-75 | writing an unrecognised mode and letting the timer fire once yields 25000 mC, and the mode then reads back as "NORMAL" |
| SimtempTest.HandleTimer | kernel/nxp_simtemp-test.c:93-104 | the handler asks for a restart exactly when the counter is positive, and then lowers it by one. At zero it stops and leaves the counter at zero |
| SimtempTest.Restarts | kernel/nxp_simtemp-test.c:93-104 | left to run from counter `c`, the handler asks for exactly `c` restarts before it stops |
| SimtempTest.RunTimer | kernel/nxp_simtemp-test.c:93-104 | driven until it declines, the handler runs `c + 1` times and leaves the counter at 0 |
| SimtempTest.LoadedTimerRestartsTenTimes | kernel/nxp_simtemp-test.c:177 | from the counter set at load, the timer restarts exactly ten times and then stops |
| SimtempTest.Init | kernel/nxp_simtemp-test.c:84-89 | the test device starts with a zeroed 64-byte buffer and the counter at 10, the value `__simtemp_init` sets at kernel/nxp_simtemp-test.c:177 |
| SimtempTest.Read | kernel/nxp_simtemp-test.c:109-125 | the test device's `read` returns 0 at or past byte 64. Otherwise it returns `timer_buff[off..off+count]` and advances the position by the count. The count plus the bytes left uncopied is `min(len, 64 - off)` |
| SimtempTest.Write | kernel/nxp_simtemp-test.c:128-144 | the test device's `write` changes nothing at or past byte 64. Otherwise count plus shortfall is `min(len, 64 - off)`, the copied bytes land at `[off, off+count)`, the position advances by the count within 64, the uncopied span after them is zero-filled, and no other byte changes |
| SimtempTest.WriteThenRead | kernel/nxp_simtemp-test.c:109-144 | a fully copied write followed by a fully copied read at the same position returns the written bytes that fit |
| SimtempTest.ShortWriteReadsBack | kernel/nxp_simtemp-test.c:109-144 | at position 0, any write of at most 64 bytes reads back in full |
| SimtempTest.DummyStore | kernel/nxp_simtemp-test.c:53-56 | the dummy attribute's store accepts any text and reports the whole write as consumed |

## Left out

- Timer arming and re-arming are not modelled: `hrtimer_init`, `hrtimer_start`, `ms_to_ktime`, `hrtimer_forward_now`, and the sensor handler's constant `HRTIMER_RESTART`. A tick is an event.
- Reading the clock (`ktime_get_real_ts64`) and the calendar conversion (`time64_to_tm`) are not modelled. The broken-down time is the `Render.Stamp` input. Its range check only decides whether the line could be cut.
- `get_random_u32` is not modelled. The draw is a parameter of the tick.
- Logging (`pr_info`, `pr_warn`) is not modelled. It has no effect on state.
- The wait queue, `poll_wait`, the unused spinlock, and all concurrency are not modelled. Each handler runs as one atomic step.
- Module init and exit are not modelled: `kzalloc` of the unused `data_buffer`, `misc_register`, `device_create_file`, the test module's kobject, sysfs and `register_chrdev` set-up, and the error paths of all of these. One consequence: the test module's check `major_dev_nu < 0` on an unsigned value can never be true, and the model does not cover it.
- `DEVICE_INT_ATTR` text parsing for `sampling_ms` and `threshold_mC` is not modelled. The events carry the already parsed `int`.
- `my_open`, `my_release` and the test module's `dummy_show` are not modelled. They only log or format a fixed message.
- The header, the generated module metadata, the command-line monitor and the GUI are not part of this model.
- Case folding: `CString.CaseEq` folds ASCII letters only. The kernel's `tolower` also folds Latin-1 capitals. Every comparison here is against an ASCII literal, and a Latin-1 capital never folds to an ASCII letter, so the outcomes agree.
- User copies model a fault as a short count `notCopied`, at most what was asked. Which bytes fault is not modelled.
- Transfer.Read: the length is bounded by the VFS limit `MAX_RW_COUNT` and the position by `LOFF_MAX`. Requests outside those bounds never reach the handler.
- Simtemp.Tick: the model keeps the module's as-written temperature field, not the corrected one below.
- Sampler.TickDefined: the model stops at the `temp += 100` overflow in RAMP mode. ISO C leaves it undefined. A kernel built with `-fno-strict-overflow` wraps it to `INT_MIN`, and the model does not follow that wrap.

## Findings

| source | as written | input that shows it | evidently intended | confidence | as-written member | corrected member |
|---|---|---|---|---|---|---|
| kernel/nxp_simtemp.c:78-85 | the fraction `temp%1000` is printed with `%d`, unpadded and signed | 25050 mC prints "025.50C", which reads as 25.5 degrees. -25050 mC prints "-25.-50C" | a three-digit fraction of the magnitude, with one leading sign: "025.050C", "-025.050C" | high, not executed | Render.TempFieldMisread, Render.TempFieldReadsBackIff, Render.NegativeFieldUnreadable | Render.TempFieldFixed, Render.TempFieldFixedRoundTrip |
| kernel/nxp_simtemp.c:22-24 | `strncpy` copies up to 10 bytes into the 10-byte `mode_buf`, and only a newline is cut | "123456789" written after "ABCDEFGH\nX" leaves no newline or NUL in the buffer, so `strcspn` reads past it. "RA" written after "NORMAL" reads back as "RARMAL" | keep at most nine bytes of the line and always terminate right after them | high, not executed | ModeAttr.NineByteStoreUndefined, ModeAttr.LongStoreUndefined, ModeAttr.ShortStoreShowsStaleTail | ModeAttr.StoreBounded, ModeAttr.StoreBoundedShow |

The sensor model `Simtemp` deliberately uses the as-written definitions
(`Render.Printed`, `ModeAttr.Store`), since it describes the module as it
ships. The corrected definitions are proved on their own.
