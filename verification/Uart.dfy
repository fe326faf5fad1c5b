/** The transmitter of the emulated serial port (hv/src/vmm/devices/vmd_8250uart.c): bytes are collected
    in a buffer and printed a line at a time. */
module SerialPort {
  import opened Bytes

  const NEWLINE: u8 := 10
  const VMD_8250UART_T_OUTPUT_BUFFER_CAPACITY: nat := 128
  const LINE_LIMIT: nat := VMD_8250UART_T_OUTPUT_BUFFER_CAPACITY - 1

  /** What %s prints: the bytes in front of the first NUL. */
  function CString(s: seq<u8>): (r: seq<u8>)
    ensures 0 !in r && r <= s && (r == s || s[|r|] == 0)
  {
    if s == [] || s[0] == 0 then [] else [s[0]] + CString(s[1..])
  }

  function Concat(lines: seq<seq<u8>>): seq<u8> {
    if lines == [] then [] else Concat(lines[..|lines| - 1]) + lines[|lines| - 1]
  }

  /** A stretch of the stream that is flushed at once: it ends with its only newline, or it fills the
      buffer and has none. */
  ghost predicate Chunk(c: seq<u8>) {
    && 0 < |c| <= LINE_LIMIT
    && NEWLINE !in c[..|c| - 1]
    && (c[|c| - 1] == NEWLINE || |c| == LINE_LIMIT)
  }

  /** What is printed for a chunk. */
  function Printed(c: seq<u8>): seq<u8>
    requires c != []
  {
    CString(if c[|c| - 1] == NEWLINE then c[..|c| - 1] else c)
  }

  /** A reader of the output gives the newline back to every line that did not fill the buffer. */
  function Restored(line: seq<u8>): seq<u8> {
    if |line| == LINE_LIMIT then line else line + [NEWLINE]
  }

  function RestoredAll(lines: seq<seq<u8>>): seq<u8> {
    if lines == [] then [] else RestoredAll(lines[..|lines| - 1]) + Restored(lines[|lines| - 1])
  }

  ghost predicate PrintedFrom(printed: seq<seq<u8>>, chunks: seq<seq<u8>>) {
    && |printed| == |chunks|
    && (forall k :: 0 <= k < |chunks| ==> Chunk(chunks[k]) && printed[k] == Printed(chunks[k]))
  }

  lemma NoNul(s: seq<u8>)
    ensures CString(s) == s <==> 0 !in s
  {
    var r := CString(s);
    if r != s {
      assert s[|r|] == 0;
    }
  }

  /** One line gives its chunk back exactly when the chunk holds no NUL; otherwise it differs at the NUL. */
  lemma RestoredLine(c: seq<u8>)
    requires Chunk(c)
    ensures 0 !in c ==> Restored(Printed(c)) == c
    ensures 0 in c ==> DiffersWithin(Restored(Printed(c)), c)
  {
    var body := if c[|c| - 1] == NEWLINE then c[..|c| - 1] else c;
    NoNul(body);
    if 0 !in c {
      if c[|c| - 1] == NEWLINE {
        assert c == body + [NEWLINE];
      }
    } else {
      assert 0 in body by {
        var k :| 0 <= k < |c| && c[k] == 0;
        assert body[k] == 0;
      }
      CutLine(c, body);
    }
  }

  lemma CutLine(c: seq<u8>, body: seq<u8>)
    requires |c| <= LINE_LIMIT && body <= c && 0 in body
    ensures DiffersWithin(Restored(CString(body)), c)
  {
    var r := CString(body);
    assert r != body && c[|r|] == 0;
    assert Restored(r)[|r|] == NEWLINE;
  }

  /** Stream conservation: the printed lines, newlines given back, followed by what is still buffered are
      the bytes that were sent, exactly when no flushed byte is NUL. */
  lemma {:induction false} StreamIsConserved(printed: seq<seq<u8>>, chunks: seq<seq<u8>>, pending: seq<u8>)
    requires PrintedFrom(printed, chunks)
    ensures RestoredAll(printed) + pending == Concat(chunks) + pending <==> 0 !in Concat(chunks)
  {
    Conserved(printed, chunks);
    if RestoredAll(printed) + pending == Concat(chunks) + pending {
      assert |RestoredAll(printed)| == |Concat(chunks)|;
      assert RestoredAll(printed) == (RestoredAll(printed) + pending)[..|Concat(chunks)|];
    }
  }

  lemma {:induction false} Conserved(printed: seq<seq<u8>>, chunks: seq<seq<u8>>)
    requires PrintedFrom(printed, chunks)
    ensures 0 !in Concat(chunks) ==> RestoredAll(printed) == Concat(chunks)
    ensures 0 in Concat(chunks) ==> DiffersWithin(RestoredAll(printed), Concat(chunks))
  {
    hide Restored, Printed, DiffersWithin, Chunk;
    if chunks != [] {
      var n := |chunks| - 1;
      var p, q := RestoredAll(printed[..n]), Concat(chunks[..n]);
      Conserved(printed[..n], chunks[..n]);
      RestoredLine(chunks[n]);
      var r, c := Restored(printed[n]), chunks[n];
      if 0 in q {
        DifferenceStays(p, q, r, c);
      } else if 0 in c {
        DifferenceMoves(p, r, c);
      }
    }
  }

  lemma ChunkAdded(printed: seq<seq<u8>>, chunks: seq<seq<u8>>, c: seq<u8>)
    requires PrintedFrom(printed, chunks) && c != []
    requires |c| <= LINE_LIMIT && NEWLINE !in c[..|c| - 1] && (c[|c| - 1] == NEWLINE || |c| == LINE_LIMIT)
    ensures PrintedFrom(printed + [Printed(c)], chunks + [c])
    ensures Concat(chunks + [c]) == Concat(chunks) + c
  {
    assert (chunks + [c])[..|chunks|] == chunks;
  }

  ghost predicate DiffersWithin(s: seq<u8>, t: seq<u8>) {
    exists k :: 0 <= k < |s| && k < |t| && s[k] != t[k]
  }

  lemma DifferenceMoves(front: seq<u8>, s: seq<u8>, t: seq<u8>)
    requires DiffersWithin(s, t)
    ensures DiffersWithin(front + s, front + t)
  {
    var k :| 0 <= k < |s| && k < |t| && s[k] != t[k];
    assert (front + s)[|front| + k] != (front + t)[|front| + k];
  }

  lemma DifferenceStays(s: seq<u8>, t: seq<u8>, s': seq<u8>, t': seq<u8>)
    requires DiffersWithin(s, t)
    ensures DiffersWithin(s + s', t + t')
  {
    var k :| 0 <= k < |s| && k < |t| && s[k] != t[k];
    assert (s + s')[k] != (t + t')[k];
  }

  class Uart {
    const outputBuffer: array<u8>
    var outputBufferSize: nat
    /** The lines given to the host's console. */
    var printed: seq<seq<u8>>
    /** The bytes sent so far: the flushed chunks, then the buffer. */
    ghost var chunks: seq<seq<u8>>

    constructor ()
      ensures Valid() && Sent() == [] && printed == []
    {
      outputBuffer := new u8[VMD_8250UART_T_OUTPUT_BUFFER_CAPACITY](_ => 0);
      outputBufferSize := 0;
      printed, chunks := [], [];
    }

    ghost predicate Valid()
      reads this, outputBuffer
    {
      && outputBuffer.Length == VMD_8250UART_T_OUTPUT_BUFFER_CAPACITY
      && outputBufferSize < LINE_LIMIT
      && NEWLINE !in outputBuffer[..outputBufferSize]
      && PrintedFrom(printed, chunks)
    }

    ghost function Sent(): seq<u8>
      requires outputBufferSize <= outputBuffer.Length
      reads this, outputBuffer
    {
      Concat(chunks) + outputBuffer[..outputBufferSize]
    }

    /** vmd_8250uart_putc. The first test, which would reset the size to 0, never succeeds: the buffer was
        flushed before it filled. */
    method PutC(readByte: u8)
      requires Valid()
      modifies this, outputBuffer
      ensures Valid() && Sent() == old(Sent()) + [readByte]
      ensures if readByte == NEWLINE || old(outputBufferSize) + 1 == LINE_LIMIT then
                && outputBufferSize == 0
                && printed == old(printed) + [Printed(old(outputBuffer[..outputBufferSize]) + [readByte])]
              else
                printed == old(printed)
    {
      hide Concat, PrintedFrom, CString, Chunk;
      ghost var chunk := outputBuffer[..outputBufferSize] + [readByte];
      if outputBufferSize >= LINE_LIMIT {
        assert false;
      }
      outputBuffer[outputBufferSize] := readByte;
      outputBufferSize := outputBufferSize + 1;
      assert outputBuffer[..outputBufferSize] == chunk;

      if readByte == NEWLINE || outputBufferSize >= LINE_LIMIT {
        if outputBufferSize > 0 && outputBuffer[outputBufferSize - 1] == NEWLINE {
          outputBuffer[outputBufferSize - 1] := 0;
        } else {
          outputBuffer[outputBufferSize] := 0;
        }
        StopsAtNul(outputBuffer[..], if readByte == NEWLINE then chunk[..|chunk| - 1] else chunk);
        printed := printed + [CString(outputBuffer[..])];
        outputBufferSize := 0;
        ChunkAdded(old(printed), chunks, chunk);
        chunks := chunks + [chunk];
      }
    }

    /** A whole stream. */
    method PutAll(stream: seq<u8>)
      requires Valid()
      modifies this, outputBuffer
      ensures Valid() && Sent() == old(Sent()) + stream
      ensures RestoredAll(printed) + outputBuffer[..outputBufferSize] == Sent()
              <==> 0 !in Sent()[..|Sent()| - outputBufferSize]
    {
      hide Concat, PrintedFrom, CString, Printed;
      for i := 0 to |stream|
        invariant Valid() && Sent() == old(Sent()) + stream[..i]
      {
        PutC(stream[i]);
        assert stream[..i + 1] == stream[..i] + [stream[i]];
      }
      assert stream[..|stream|] == stream;
      assert Sent()[..|Sent()| - outputBufferSize] == Concat(chunks);
      StreamIsConserved(printed, chunks, outputBuffer[..outputBufferSize]);
    }
  }

  lemma {:induction false} StopsAtNul(b: seq<u8>, s: seq<u8>)
    requires |s| < |b| && b[..|s|] == s && b[|s|] == 0
    ensures CString(b) == CString(s)
  {
    if s != [] && s[0] != 0 {
      assert b[1..][..|s| - 1] == b[1..|s|] == s[1..];
      StopsAtNul(b[1..], s[1..]);
    }
  }
}
