/** The bounded, offset-based copy between a 64-byte kernel buffer and a user
    buffer that both modules' `read` handlers (and the test module's `write`
    handler) perform. The user-copy routines may stop short; how many bytes
    they leave uncopied is an input (`notCopied`), at most the requested count. */
module Transfer {
  import opened CTypes
  import opened CString

  /** `sizeof(kernel_buffer)` and `sizeof(timer_buff)`. A line printed into
      `kernel_buffer` keeps at most 63 characters and a NUL. */
  const BUF_SIZE: nat := 64

  /** The VFS clamps every read/write length to INT_MAX rounded down to a page. */
  const MAX_RW_COUNT: nat := 0x7fff_f000

  /** Largest file position (`loff_t` is a signed 64-bit integer). */
  const LOFF_MAX: nat := 0x7fff_ffff_ffff_ffff

  /** What the VFS hands a read/write handler: a non-negative position and a clamped length. */
  predicate ValidRequest(off: nat, len: nat) {
    off <= LOFF_MAX && len <= MAX_RW_COUNT
  }

  /** `to_copy` for a position inside the buffer: the request, or whatever is left
      of the buffer when `len + off` reaches its end. With the lengths the VFS
      allows, the unsigned sum cannot wrap, so it is computed exactly. */
  function ToCopy(off: nat, len: nat): (n: nat)
    requires off < BUF_SIZE && ValidRequest(off, len)
    ensures n <= len && off + n <= BUF_SIZE
    ensures n == len || off + n == BUF_SIZE
  {
    if len + off < BUF_SIZE then len else BUF_SIZE - off
  }

  /** What the caller may report as left uncopied: nothing past the end of the buffer, nothing past the request. */
  predicate ShortfallOk(off: nat, len: nat, notCopied: nat) {
    off < BUF_SIZE ==> notCopied <= len && off + notCopied <= BUF_SIZE
  }

  /** The result of a read: the returned byte count, the bytes the user buffer
      received, and the new file position. */
  datatype ReadOut = ReadOut(count: nat, data: seq<char>, off: nat)

  /** A `read` handler over a 64-byte buffer. */
  function Read(buf: seq<char>, off: nat, len: nat, notCopied: nat): (r: ReadOut)
    requires |buf| == BUF_SIZE && ValidRequest(off, len)
    requires ShortfallOk(off, len, notCopied)
    ensures off >= BUF_SIZE ==> r == ReadOut(0, [], off)
    ensures off < BUF_SIZE ==> r.count + notCopied == Min(len, BUF_SIZE - off)
    ensures r.off == off + r.count && |r.data| == r.count
    ensures off < BUF_SIZE ==> r.off <= BUF_SIZE && r.data == buf[off..off + r.count]
  {
    if off >= BUF_SIZE then ReadOut(0, [], off)
    else
      var toCopy := ToCopy(off, len);
      var delta := toCopy - notCopied;
      ReadOut(delta, buf[off..off + delta], off + delta)
  }

  /** The result of a write: the new buffer, the returned byte count and the new file position. */
  datatype WriteOut = WriteOut(buf: seq<char>, count: nat, off: nat)

  /** A `write` handler over a 64-byte buffer, copying from the user bytes `data`.
      When the user copy stops short, the kernel's copy routine fills the bytes
      it could not copy with zeros. */
  function Write(buf: seq<char>, off: nat, data: seq<char>, notCopied: nat): (r: WriteOut)
    requires |buf| == BUF_SIZE && ValidRequest(off, |data|)
    requires ShortfallOk(off, |data|, notCopied)
    ensures |r.buf| == BUF_SIZE
    ensures off >= BUF_SIZE ==> r == WriteOut(buf, 0, off)
    ensures off < BUF_SIZE ==> r.count + notCopied == Min(|data|, BUF_SIZE - off)
    ensures r.off == off + r.count
    ensures off < BUF_SIZE ==> forall i :: 0 <= i < BUF_SIZE ==>
      r.buf[i] == if i < off || i >= r.off + notCopied then buf[i]
                  else if i < r.off then data[i - off]
                  else NUL
  {
    if off >= BUF_SIZE then WriteOut(buf, 0, off)
    else
      var toCopy := ToCopy(off, |data|);
      var delta := toCopy - notCopied;
      WriteOut(buf[..off] + data[..delta] + Nuls(notCopied) + buf[off + toCopy..], delta, off + delta)
  }

  /** A fully copied write followed by a fully copied read of the same span returns what was written
      (as much of it as fits in the buffer). */
  lemma WriteThenRead(buf: seq<char>, off: nat, data: seq<char>)
    requires |buf| == BUF_SIZE && off < BUF_SIZE && |data| <= MAX_RW_COUNT
    ensures var w := Write(buf, off, data, 0);
            var r := Read(w.buf, off, |data|, 0);
            r.count == w.count && r.data == data[..w.count] && r.off == w.off
  {
    var w := Write(buf, off, data, 0);
    var r := Read(w.buf, off, |data|, 0);
    assert r.count == w.count;
    if r.count > 0 {
      forall i | 0 <= i < r.count
        ensures r.data[i] == data[i]
      {
        assert r.data[i] == w.buf[off + i];
      }
    }
  }

  /** Reading on from where the previous read stopped continues the same byte
      stream: the two pieces together are the buffer from the first position on. */
  lemma ConsecutiveReads(buf: seq<char>, off: nat, len1: nat, short1: nat, len2: nat, short2: nat)
    requires |buf| == BUF_SIZE && ValidRequest(off, len1) && ShortfallOk(off, len1, short1)
    requires var r1 := Read(buf, off, len1, short1);
             ValidRequest(r1.off, len2) && ShortfallOk(r1.off, len2, short2)
    ensures var r1 := Read(buf, off, len1, short1);
            var r2 := Read(buf, r1.off, len2, short2);
            r2.off <= BUF_SIZE || r2.off == off
    ensures var r1 := Read(buf, off, len1, short1);
            var r2 := Read(buf, r1.off, len2, short2);
            off <= BUF_SIZE ==> r2.off <= BUF_SIZE && r1.data + r2.data == buf[off..r2.off]
  {
  }
}
