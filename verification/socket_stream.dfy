/** Reading from a socket through a buffer, and reading lines. */
module SocketStream {
  import opened Common
  import opened Text

  const READ_BUFF_SIZE := 4096
  const MAX_LINE_LENGTH := 32768
  const RECV_BUFSIZ := 16384

  /** The operating system's side: pending is what is still to arrive before the peer closes. */
  class Socket {
    var pending: string
    var failed: bool

    constructor (bytes: string)
      ensures pending == bytes && !failed
    {
      pending, failed := bytes, false;
    }

    /** Waiting times out or succeeds. */
    method WaitReadable() returns (ok: bool)
      modifies this`failed
      ensures failed == (old(failed) || !ok)
    {
      ok := *;
      failed := failed || !ok;
    }

    /** Some of the pending bytes, at most size of them; 0 at the end; or an error. */
    method Recv(size: nat) returns (n: int, data: string)
      requires size > 0
      modifies this
      ensures n < 0 ==> failed && data == "" && pending == old(pending)
      ensures n >= 0 ==> failed == old(failed)
      ensures n >= 0 ==> n == |data| <= size && old(pending) == data + pending
      ensures n == 0 ==> pending == ""
    {
      n :| -1 <= n <= size && n <= |pending| && (n == 0 ==> pending == "");
      if n < 0 {
        failed, data := true, "";
      } else {
        data, pending := pending[..n], pending[n..];
      }
    }
  }

  class SocketStream {
    const sock: Socket
    const readBuff: array<char>
    var readBuffOff: nat
    var readBuffContentSize: nat

    ghost predicate Valid()
      reads this
    {
      readBuff.Length == READ_BUFF_SIZE && readBuffOff <= readBuffContentSize <= READ_BUFF_SIZE
    }

    /** The bytes still to be read: first those in the buffer, then those not yet received. */
    ghost function Remaining(): string
      requires Valid()
      reads this, readBuff, sock
    {
      readBuff[readBuffOff..readBuffContentSize] + sock.pending
    }

    constructor (sock: Socket)
      ensures Valid() && this.sock == sock && Remaining() == sock.pending && fresh(readBuff)
    {
      this.sock := sock;
      readBuff := new char[READ_BUFF_SIZE];
      readBuffOff, readBuffContentSize := 0, 0;
    }

    /** data is what is copied to the caller's buffer. */
    method Read(size: nat) returns (n: int, data: string)
      requires Valid() && size > 0
      modifies this, readBuff, sock
      ensures Valid()
      ensures n < 0 ==> sock.failed && data == "" && Remaining() == old(Remaining())
      ensures n >= 0 ==> sock.failed == old(sock.failed) && n == |data| <= size
      ensures n >= 0 ==> old(Remaining()) == data + Remaining()
      ensures n == 0 ==> Remaining() == ""
    {
      if readBuffOff < readBuffContentSize {
        var remainingSize := readBuffContentSize - readBuffOff;
        n := if size <= remainingSize then size else remainingSize;
        data := readBuff[readBuffOff..readBuffOff + n];
        assert readBuff[readBuffOff..readBuffContentSize] == data + readBuff[readBuffOff + n..readBuffContentSize];
        Assoc(data, readBuff[readBuffOff + n..readBuffContentSize], sock.pending);
        readBuffOff := readBuffOff + n;
        return;
      }
      assert Remaining() == sock.pending;
      var readable := sock.WaitReadable();
      if !readable {
        return -1, "";
      }
      readBuffOff, readBuffContentSize := 0, 0;
      if size < READ_BUFF_SIZE {
        n, data := FillAndTake(size);
      } else {
        n, data := sock.Recv(size);
        assert Remaining() == sock.pending;
      }
    }

    /** A short read receives a whole buffer and hands over the beginning of it. */
    method FillAndTake(size: nat) returns (n: int, data: string)
      requires Valid() && size > 0 && readBuffOff == readBuffContentSize == 0
      modifies this, readBuff, sock
      ensures Valid()
      ensures n < 0 ==> sock.failed && data == "" && Remaining() == old(Remaining())
      ensures n >= 0 ==> sock.failed == old(sock.failed) && n == |data| <= size
      ensures n >= 0 ==> old(Remaining()) == data + Remaining()
      ensures n == 0 ==> Remaining() == ""
    {
      assert Remaining() == sock.pending;
      var received: string;
      n, received := sock.Recv(READ_BUFF_SIZE);
      if n <= 0 {
        data := "";
        assert Remaining() == sock.pending;
        return;
      }
      forall i | 0 <= i < n {
        readBuff[i] := received[i];
      }
      assert readBuff[..n] == received;
      if n <= size {
        data := received;
        assert Remaining() == sock.pending;
      } else {
        data := received[..size];
        readBuffOff, readBuffContentSize := size, n;
        n := size;
        assert received == data + readBuff[readBuffOff..readBuffContentSize];
        Assoc(data, readBuff[readBuffOff..readBuffContentSize], sock.pending);
      }
    }
  }

  // ----- lines

  /** The length of the first line of s: through its first CRLF, or to the end. */
  function LineEnd(s: string): (n: nat)
    ensures n <= |s|
    ensures s != "" ==> n > 0
    ensures n == |s| || (n >= 2 && s[n - 2] == '\r' && s[n - 1] == '\n')
  {
    if |s| < 2 then |s|
    else if s[0] == '\r' && s[1] == '\n' then 2
    else 1 + LineEnd(s[1..])
  }

  predicate EndsWithCrlf(s: string) {
    |s| >= 2 && s[|s| - 2] == '\r' && s[|s| - 1] == '\n'
  }

  ghost predicate NoCrlf(s: string, n: nat)
    requires n <= |s|
  {
    forall j :: 0 < j < n ==> !(s[j - 1] == '\r' && s[j] == '\n')
  }

  lemma LineEndAt(s: string, n: nat)
    requires 2 <= n <= |s| && s[n - 2] == '\r' && s[n - 1] == '\n' && NoCrlf(s, n - 1)
    ensures LineEnd(s) == n
  {
    if n > 2 {
      assert !(s[0] == '\r' && s[1] == '\n');
      forall j | 0 < j < n - 2 ensures !(s[1..][j - 1] == '\r' && s[1..][j] == '\n') {
        assert s[1..][j - 1] == s[j] && s[1..][j] == s[j + 1];
      }
      LineEndAt(s[1..], n - 1);
    }
  }

  lemma LineEndNone(s: string)
    requires NoCrlf(s, |s|)
    ensures LineEnd(s) == |s| && !EndsWithCrlf(s)
  {
    if |s| >= 2 {
      assert !(s[0] == '\r' && s[1] == '\n');
      forall j | 0 < j < |s| - 1 ensures !(s[1..][j - 1] == '\r' && s[1..][j] == '\n') {
        assert s[1..][j - 1] == s[j] && s[1..][j] == s[j + 1];
      }
      LineEndNone(s[1..]);
    }
  }

  /** A text without carriage returns, ended by CRLF, is a line of its own. */
  lemma CrlfLine(body: string, rest: string)
    requires forall j :: 0 <= j < |body| ==> body[j] != '\r'
    ensures var s := body + "\r\n" + rest;
            LineEnd(s) == |body| + 2 && s[..|body| + 2] == body + "\r\n" && s[|body| + 2..] == rest
    ensures EndsWithCrlf(body + "\r\n") && (body + "\r\n")[..|body|] == body
  {
    var s := body + "\r\n" + rest;
    assert forall j :: 0 <= j < |body| ==> s[j] == body[j];
    assert s[|body|] == '\r' && s[|body| + 1] == '\n';
    assert NoCrlf(s, |body| + 1);
    LineEndAt(s, |body| + 2);
  }

  /** A line is delivered if it is not empty and not too long. One without CRLF is measured before its end
      is seen, so it must be shorter by one. */
  predicate LineFits(s: string) {
    var line := s[..LineEnd(s)];
    line != "" && if EndsWithCrlf(line) then |line| <= MAX_LINE_LENGTH else |line| < MAX_LINE_LENGTH
  }

  /** How much of the stream a failed attempt to read a line takes. */
  function Wasted(s: string): (n: nat)
    ensures n <= |s|
  {
    if LineEnd(s) <= MAX_LINE_LENGTH then LineEnd(s) else MAX_LINE_LENGTH
  }

  class StreamLineReader {
    const strm: SocketStream
    const fixedBuffer: array<char>
    var fixedBufferUsedSize: nat
    var growableBuffer: string

    ghost predicate Valid()
      reads this, strm, fixedBuffer
    {
      && strm.Valid() && fixedBuffer != strm.readBuff
      && 2 <= fixedBuffer.Length && fixedBufferUsedSize < fixedBuffer.Length
      && (growableBuffer != "" ==> fixedBufferUsedSize == fixedBuffer.Length - 1)
      && (fixedBufferUsedSize > 0 ==> fixedBuffer[fixedBufferUsedSize] == '\0')
    }

    constructor (strm: SocketStream, fixedBufferSize: nat)
      requires strm.Valid() && fixedBufferSize >= 2
      ensures Valid() && fresh(fixedBuffer) && this.strm == strm
    {
      this.strm := strm;
      fixedBuffer := new char[fixedBufferSize];
      fixedBufferUsedSize := 0;
      growableBuffer := "";
    }

    /** What ptr() and size() give access to. */
    function Line(): string
      requires fixedBufferUsedSize <= fixedBuffer.Length
      reads this, fixedBuffer
    {
      if growableBuffer == "" then fixedBuffer[..fixedBufferUsedSize] else growableBuffer
    }

    function Size(): (n: nat)
      requires fixedBufferUsedSize <= fixedBuffer.Length
      reads this, fixedBuffer
      ensures n == |Line()|
    {
      if growableBuffer == "" then fixedBufferUsedSize else |growableBuffer|
    }

    method Append(c: char)
      requires Valid()
      modifies this, fixedBuffer
      ensures Valid() && Line() == old(Line()) + [c]
    {
      if fixedBufferUsedSize < fixedBuffer.Length - 1 {
        fixedBuffer[fixedBufferUsedSize] := c;
        fixedBufferUsedSize := fixedBufferUsedSize + 1;
        fixedBuffer[fixedBufferUsedSize] := '\0';
      } else {
        if growableBuffer == "" {
          assert fixedBuffer[fixedBufferUsedSize] == '\0';
          growableBuffer := fixedBuffer[..fixedBufferUsedSize];
        }
        growableBuffer := growableBuffer + [c];
      }
    }

    /** The loop's read of one byte, and its append. */
    method Take() returns (n: int, byte: char)
      requires Valid()
      modifies this, fixedBuffer, strm, strm.readBuff, strm.sock
      ensures Valid()
      ensures Line() + strm.Remaining() == old(Line() + strm.Remaining())
      ensures old(strm.sock.failed) ==> strm.sock.failed
      ensures n <= 1 && Line() == old(Line()) + if n == 1 then [byte] else ""
      ensures n < 0 ==> strm.sock.failed
      ensures n == 0 ==> strm.Remaining() == ""
    {
      var data;
      n, data := strm.Read(1);
      byte := '\0';
      if n > 0 {
        byte := data[0];
        assert data == [byte];
        Assoc(Line(), data, strm.Remaining());
        Append(byte);
      }
    }

    /** Reads one line, a byte at a time. Whatever happens, the bytes taken from the stream are those in
        Line(); without a read error the outcome depends only on the bytes. */
    method GetLine() returns (ok: bool)
      requires Valid()
      modifies this, fixedBuffer, strm, strm.readBuff, strm.sock
      ensures Valid()
      ensures old(strm.Remaining()) == Line() + strm.Remaining()
      ensures old(strm.sock.failed) ==> strm.sock.failed
      ensures ok ==> IsFirstLine(old(strm.Remaining()), Line())
      ensures !ok ==>
                strm.sock.failed || (!LineFits(old(strm.Remaining())) && |Line()| == Wasted(old(strm.Remaining())))
    {
      ghost var all := strm.Remaining();
      fixedBufferUsedSize := 0;
      growableBuffer := "";
      var prevByte := '\0';
      var i: nat := 0;
      while true
        invariant Valid() && all == Line() + strm.Remaining() && |Line()| == i <= MAX_LINE_LENGTH
        invariant old(strm.sock.failed) ==> strm.sock.failed
        invariant NoCrlf(Line(), i)
        invariant prevByte == if i == 0 then '\0' else Line()[i - 1]
        decreases |all| - i
      {
        if Size() >= MAX_LINE_LENGTH {
          LongLine(all, Line());
          return false;
        }
        ghost var before := Line();
        var n, byte := Take();
        if n < 0 {
          return false;
        } else if n == 0 {
          WholeIsLine(all, Line());
          return i > 0;
        }
        if prevByte == '\r' && byte == '\n' {
          CrlfEndsLine(before, byte, strm.Remaining());
          return true;
        }
        NoCrlfSnoc(before, byte);
        prevByte := byte;
        i := i + 1;
      }
    }
  }

  ghost predicate IsFirstLine(s: string, line: string) {
    LineFits(s) && line == s[..LineEnd(s)]
  }

  lemma WholeIsLine(s: string, line: string)
    requires s == line + "" && NoCrlf(line, |line|) && |line| < MAX_LINE_LENGTH
    ensures if line == "" then !LineFits(s) && Wasted(s) == 0 else IsFirstLine(s, line)
  {
    assert s == line;
    LineEndNone(s);
    assert s[..|s|] == s;
  }

  lemma CrlfEndsLine(before: string, byte: char, rest: string)
    requires before != "" && before[|before| - 1] == '\r' && byte == '\n'
    requires NoCrlf(before, |before|) && |before| < MAX_LINE_LENGTH
    ensures IsFirstLine(before + [byte] + rest, before + [byte])
  {
    var line := before + [byte];
    var s := line + rest;
    assert forall j :: 0 <= j < |before| ==> s[j] == before[j];
    LineEndAt(s, |line|);
    assert s[..|line|] == line;
  }

  lemma NoCrlfSnoc(before: string, byte: char)
    requires NoCrlf(before, |before|)
    requires !(before != "" && before[|before| - 1] == '\r' && byte == '\n')
    ensures NoCrlf(before + [byte], |before| + 1)
  {
  }

  lemma LongLine(s: string, line: string)
    requires line <= s && |line| == MAX_LINE_LENGTH && NoCrlf(line, |line|)
    ensures !LineFits(s) && Wasted(s) == MAX_LINE_LENGTH
  {
    forall j | 0 < j < MAX_LINE_LENGTH ensures !(s[j - 1] == '\r' && s[j] == '\n') {
      assert s[j - 1] == line[j - 1] && s[j] == line[j];
    }
    var end := s[..LineEnd(s)];
    assert EndsWithCrlf(end) ==> s[|end| - 2] == '\r' && s[|end| - 1] == '\n';
  }

  /** A line is delivered exactly if, with its end, it is no longer than the limit; one that ends with the stream must
      be shorter than it, and not empty. */
  lemma LineFitsIff(body: string, rest: string)
    requires forall j :: 0 <= j < |body| ==> body[j] != '\r'
    ensures LineFits(body + "\r\n" + rest) <==> |body| + 2 <= 32768
    ensures LineFits(body) <==> 0 < |body| < 32768
  {
    CrlfLine(body, rest);
    LineEndNone(body);
    assert body[..|body|] == body;
  }
}
