/** The `mode` device attribute: a 10-byte text buffer written by `mode_store`
    and read by `mode_show`. */
module ModeAttr {
  import opened CTypes
  import opened CString

  /** `TXT_BUF_SIZE`, the size of `mode_buf`. */
  const TXT_BUF_SIZE: nat := 10

  /** `mode_buf` as the module starts: "RAMP" followed by zero bytes. */
  function InitialMode(): (m: seq<char>)
    ensures |m| == TXT_BUF_SIZE && Terminated(m) && CStr(m) == "RAMP"
    ensures forall i :: |"RAMP"| <= i < TXT_BUF_SIZE ==> m[i] == NUL
  {
    StrCpyInto(Nuls(TXT_BUF_SIZE), "RAMP")
  }

  /** Number of bytes `mode_store` copies and reports. */
  function CopyCount(len: nat): nat {
    Min(len, TXT_BUF_SIZE)
  }

  /** The buffer right after `strncpy`, before the newline cut. */
  function Copied(mode: seq<char>, input: seq<char>): (b: seq<char>)
    requires |mode| == TXT_BUF_SIZE
    ensures |b| == TXT_BUF_SIZE
  {
    StrNCpy(mode, input, CopyCount(|input|))
  }

  /** `strcspn(mode_buf, "\n")` finds a newline or a terminator inside the buffer.
      When it does not, the C code reads and writes past the end of `mode_buf`. */
  predicate StoreDefined(mode: seq<char>, input: seq<char>)
    requires |mode| == TXT_BUF_SIZE
  {
    FirstStop(Copied(mode, input)) < TXT_BUF_SIZE
  }

  /** The buffer after a store, and the count the store returns. */
  datatype Stored = Stored(buf: seq<char>, count: nat)

  /** `mode_store`: copy up to 10 bytes of the written text over the buffer,
      then end the text at its first newline. */
  function Store(mode: seq<char>, input: seq<char>): (r: Stored)
    requires |mode| == TXT_BUF_SIZE && StoreDefined(mode, input)
    ensures r.count == Min(|input|, TXT_BUF_SIZE)
    ensures |r.buf| == TXT_BUF_SIZE && Terminated(r.buf)
    ensures '\n' !in CStr(r.buf)
    ensures CStr(r.buf) == UntilStop(input[..Min(|input|, TXT_BUF_SIZE)] + mode[Min(|input|, TXT_BUF_SIZE)..])
    ensures forall i :: r.count <= i < TXT_BUF_SIZE && i != |CStr(r.buf)| ==> r.buf[i] == mode[i]
    ensures forall i :: |CStr(r.buf)| < i < r.count ==> r.buf[i] == (if NUL in input[..i] then NUL else input[i])
  {
    var n := CopyCount(|input|);
    var b := Copied(mode, input);
    var cut := FirstStop(b);
    var buf := b[cut := NUL];
    assert buf[..cut] == b[..cut];
    assert CStr(buf) == b[..cut] by {
      assert buf[..cut] + [NUL] == buf[..cut + 1];
      StrCpyIntoPrefix(buf, b[..cut]);
    }
    StoreText(mode, input);
    Stored(buf, n)
  }

  /** The text before the first stop of the copied buffer is the text before
      the first stop of the input's copied prefix followed by the old bytes. */
  lemma StoreText(mode: seq<char>, input: seq<char>)
    requires |mode| == TXT_BUF_SIZE
    ensures var n := CopyCount(|input|);
            UntilStop(Copied(mode, input)) == UntilStop(input[..n] + mode[n..])
  {
    var n := CopyCount(|input|);
    var b := Copied(mode, input);
    var t := input[..n] + mode[n..];
    var k := IndexOf(input[..n], NUL);
    if k < n {
      assert NUL !in input[..k];
      forall i | 0 <= i <= k
        ensures b[i] == t[i]
      {
        if i < k {
          assert input[..i] == input[..k][..i];
          assert NUL !in input[..i];
        } else {
          assert NUL !in input[..k];
        }
      }
      assert b[..k + 1] == t[..k + 1];
      UntilStopAgree(b, t, k);
    } else {
      forall i | 0 <= i < TXT_BUF_SIZE
        ensures b[i] == t[i]
      {
        if i < n {
          assert input[..i] == input[..n][..i];
        } else {
          assert b[i] == b[n..][i - n];
        }
      }
      assert b == t;
    }
  }

  /** What `mode_show` produces: the page text and the returned length. */
  datatype Shown = Shown(text: seq<char>, count: nat)

  /** `mode_show`: copy the C string in the buffer out and report its length. */
  function Show(mode: seq<char>): (r: Shown)
    requires |mode| == TXT_BUF_SIZE && Terminated(mode)
    ensures r.count == |r.text| < TXT_BUF_SIZE
    ensures NUL !in r.text
    ensures r.text == mode[..|r.text|] && mode[|r.text|] == NUL
  {
    var s := CStr(mode);
    Shown(s, |s|)
  }

  /** `echo <text> > mode`: a text of up to nine bytes followed by a newline is
      stored whatever the buffer held before, and reads back exactly. */
  lemma EchoRoundTrip(mode: seq<char>, text: seq<char>)
    requires |mode| == TXT_BUF_SIZE && |text| < TXT_BUF_SIZE
    requires '\n' !in text && NUL !in text
    ensures StoreDefined(mode, text + "\n")
    ensures var r := Store(mode, text + "\n");
            r.count == |text| + 1 && Show(r.buf) == Shown(text, |text|)
  {
    var input := text + "\n";
    StoreText(mode, input);
    var n := CopyCount(|input|);
    var t := input[..n] + mode[n..];
    assert t[..|text| + 1] == input;
    assert t[|text|] == '\n';
  }

  /** A write that is shorter than the buffer and has no newline or NUL leaves
      the old bytes after it in place, and they read back as part of the mode. */
  lemma ShortStoreShowsStaleTail(mode: seq<char>, text: seq<char>)
    requires |mode| == TXT_BUF_SIZE && |text| < TXT_BUF_SIZE
    requires '\n' !in text && NUL !in text
    requires Terminated(mode[|text|..]) && '\n' !in mode[|text|..]
    ensures StoreDefined(mode, text)
    ensures Show(Store(mode, text).buf).text == text + CStr(mode[|text|..])
  {
    var n := |text|;
    StoreText(mode, text);
    assert text[..n] == text;
    UntilStopSkip(text, mode[n..]);
    UntilStopIsCStr(mode[n..]);
  }

  /** Text without stops is passed over by the stop search. */
  lemma {:induction false} UntilStopSkip(a: seq<char>, b: seq<char>)
    requires '\n' !in a && NUL !in a
    ensures UntilStop(a + b) == a + UntilStop(b)
  {
    if |a| > 0 {
      assert (a + b)[1..] == a[1..] + b;
      assert a[0] in a;
      UntilStopSkip(a[1..], b);
      assert FirstStop(a + b) == 1 + FirstStop(a[1..] + b);
      assert a == [a[0]] + a[1..];
    } else {
      assert a + b == b;
    }
  }

  /** Without a newline, the stop search ends at the terminator. */
  lemma UntilStopIsCStr(b: seq<char>)
    requires Terminated(b) && '\n' !in b
    ensures UntilStop(b) == CStr(b)
  {
  }

  /** Ten or more bytes with neither a newline nor a NUL among the first ten
      leave no terminator in the buffer: the newline search runs past it. */
  lemma LongStoreUndefined(mode: seq<char>, input: seq<char>)
    requires |mode| == TXT_BUF_SIZE && |input| >= TXT_BUF_SIZE
    requires forall i :: 0 <= i < TXT_BUF_SIZE ==> !IsStop(input[i])
    ensures !StoreDefined(mode, input)
  {
    var b := Copied(mode, input);
    forall i | 0 <= i < TXT_BUF_SIZE
      ensures b[i] == input[i]
    {
      assert forall j :: 0 <= j < i ==> input[..i][j] == input[j];
    }
  }

  /** The overrun is reachable with a nine-byte write: whatever the buffer
      held, after "ABCDEFGH\nX" the byte after the terminator is 'X', so a
      following "123456789" leaves the buffer without any newline or NUL. */
  lemma NineByteStoreUndefined(mode: seq<char>)
    requires |mode| == TXT_BUF_SIZE
    ensures StoreDefined(mode, "ABCDEFGH\nX")
    ensures Store(mode, "ABCDEFGH\nX").buf == "ABCDEFGH\0X"
    ensures !StoreDefined("ABCDEFGH\0X", "123456789")
  {
    StaleTailSetUp(mode);
    NineBytesOverrun();
  }

  lemma StaleTailSetUp(mode: seq<char>)
    requires |mode| == TXT_BUF_SIZE
    ensures StoreDefined(mode, "ABCDEFGH\nX")
    ensures Store(mode, "ABCDEFGH\nX").buf == "ABCDEFGH\0X"
  {
    SetUpInput();
    SetUpCut();
    FullStore(mode, "ABCDEFGH\nX");
  }

  /** The set-up write has no NUL and its newline is at index 8. */
  lemma SetUpInput()
    ensures NUL !in "ABCDEFGH\nX" && FirstStop("ABCDEFGH\nX") == 8
  {
    var input := "ABCDEFGH\nX";
    assert forall k :: 0 <= k < |input| ==> input[k] != NUL;
    assert forall k :: 0 <= k < 8 ==> !IsStop(input[k]);
    FirstStopAt(input, 8);
  }

  /** Cutting the set-up write at its newline leaves the 'X' after the terminator. */
  lemma SetUpCut()
    ensures "ABCDEFGH\nX"[8 := NUL] == "ABCDEFGH\0X"
  {
  }

  /** A stop byte with none before it is where the newline search ends. */
  lemma FirstStopAt(s: seq<char>, k: nat)
    requires k < |s| && IsStop(s[k])
    requires forall j :: 0 <= j < k ==> !IsStop(s[j])
    ensures FirstStop(s) == k
  {
  }

  /** A ten-byte write without NUL but with a newline replaces the whole buffer
      and is cut at that newline. */
  lemma FullStore(mode: seq<char>, input: seq<char>)
    requires |mode| == TXT_BUF_SIZE && |input| == TXT_BUF_SIZE
    requires NUL !in input && FirstStop(input) < TXT_BUF_SIZE
    ensures StoreDefined(mode, input)
    ensures Store(mode, input).buf == input[FirstStop(input) := NUL]
  {
    assert input[..TXT_BUF_SIZE] == input;
    CopiedPlain(mode, input);
    assert Copied(mode, input) == input;
    StoreCuts(mode, input);
  }

  /** The stored buffer is the copy with its first stop replaced by a NUL. */
  lemma StoreCuts(mode: seq<char>, input: seq<char>)
    requires |mode| == TXT_BUF_SIZE && StoreDefined(mode, input)
    ensures var b := Copied(mode, input); Store(mode, input).buf == b[FirstStop(b) := NUL]
  {
  }

  lemma NineBytesOverrun()
    ensures !StoreDefined("ABCDEFGH\0X", "123456789")
  {
    var m := "ABCDEFGH\0X";
    var input := "123456789";
    assert NUL !in input[..CopyCount(|input|)] by {
      assert input[..9] == input;
      assert forall k :: 0 <= k < |input| ==> input[k] != NUL;
    }
    CopiedPlain(m, input);
    var b := Copied(m, input);
    assert forall k :: 0 <= k < TXT_BUF_SIZE ==> !IsStop(b[k]) by {
      assert b == "123456789X";
    }
  }

  /** Without a NUL in the copied part of the input, the copy is the input's prefix over the old bytes. */
  lemma CopiedPlain(mode: seq<char>, input: seq<char>)
    requires |mode| == TXT_BUF_SIZE && NUL !in input[..CopyCount(|input|)]
    ensures var n := CopyCount(|input|);
            Copied(mode, input) == input[..n] + mode[n..]
  {
    var n := CopyCount(|input|);
    var b := Copied(mode, input);
    forall i | 0 <= i < TXT_BUF_SIZE
      ensures b[i] == (input[..n] + mode[n..])[i]
    {
      if i < n {
        assert input[..i] == input[..n][..i];
      } else {
        assert b[i] == b[n..][i - n];
      }
    }
  }

  /** A corrected store: the text up to the first newline or NUL, cut to nine
      bytes so that a terminator always fits, followed by a NUL. */
  function StoreBounded(mode: seq<char>, input: seq<char>): (r: Stored)
    requires |mode| == TXT_BUF_SIZE
    ensures r.count == Min(|input|, TXT_BUF_SIZE)
    ensures |r.buf| == TXT_BUF_SIZE && Terminated(r.buf)
  {
    var text := UntilStop(input);
    var kept := text[..Min(|text|, TXT_BUF_SIZE - 1)];
    Stored(StrCpyInto(mode, kept), CopyCount(|input|))
  }

  /** The corrected store is defined for every input, and what it keeps is
      exactly the written line (up to nine bytes), with no stale bytes after it. */
  lemma StoreBoundedShow(mode: seq<char>, input: seq<char>)
    requires |mode| == TXT_BUF_SIZE
    ensures var r := StoreBounded(mode, input);
            var line := UntilStop(input);
            Show(r.buf).text == line[..Min(|line|, TXT_BUF_SIZE - 1)]
    ensures '\n' !in Show(StoreBounded(mode, input).buf).text
  {
  }
}
