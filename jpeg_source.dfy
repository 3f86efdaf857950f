/**
 * jpeg_corefile_source: the source manager through which libjpeg pulls
 * bytes from a file, 4096 at a time. At the end of the file it hands the
 * decoder a synthesised end-of-image marker so that a truncated stream
 * ends cleanly; a file that is empty from the start is an error.
 */
module JpegSource {
  import opened Pixels

  /** INPUT_BUF_SIZE. */
  const BufSize: nat := 4096

  /** The EOI marker of ITU-T T.81 (Table B.1): 0xFF followed by JPEG_EOI. */
  const EndOfImage: seq<u8> := [0xFF, 0xD9]

  /** How a call of fill_input_buffer ended. */
  datatype FillStatus =
    | Filled       // bytes from the file are in the buffer
    | EndInserted  // the file was exhausted mid-stream: the buffer holds EndOfImage (JWRN_JPEG_EOF)
    | InputEmpty   // the file was exhausted before any byte was read: ERREXIT(JERR_INPUT_EMPTY)

  function Min(a: nat, b: nat): nat
  {
    if a < b then a else b
  }

  /**
   * The bytes the decoder sees after skipping n bytes of the stream s:
   * the rest of s, or, past its end, what is left of the end-of-image
   * markers the source inserts in pairs.
   */
  function Skipped(s: seq<u8>, n: nat): (r: seq<u8>)
    ensures n <= |s| ==> |r| == |s| - n && forall k :: 0 <= k < |r| ==> r[k] == s[n + k]
    ensures n > |s| ==> r == EndOfImage[2 - (n - |s|) % 2 ..]
  {
    if n <= |s| then s[n..]
    else if (n - |s|) % 2 == 1 then EndOfImage[1..]
    else []
  }

  /** Skipping a bytes and then b bytes leaves the decoder where skipping a + b bytes does. */
  lemma {:induction false} SkipCompose(s: seq<u8>, a: nat, b: nat)
    ensures Skipped(Skipped(s, a), b) == Skipped(s, a + b)
  {
    var t := Skipped(s, a);
    if a <= |s| {
      assert t == s[a..];
      if b <= |t| {
        assert t[b..] == s[a + b..];
      } else {
        assert b - |t| == a + b - |s|;
      }
    } else {
      var past := a - |s|;
      assert a + b - |s| == past + b;
      ParitySum(past, b);
      if past % 2 == 1 {
        assert t == [0xD9];
        if b > 1 {
          ParitySum(b - 1, 1);
        }
      } else {
        assert t == [];
      }
    }
  }

  /** Dropping k bytes of the buffered part of the stream from offset d of s leaves the stream from d + k. */
  lemma DropPending(s: seq<u8>, d: nat, pending: seq<u8>, rest: seq<u8>, k: nat)
    requires d <= |s| && pending + rest == s[d..] && k <= |pending|
    ensures d + k <= |s| && pending[k..] + rest == s[d + k..]
  {
    assert s[d..][k..] == s[d + k..];
    assert (pending + rest)[k..] == pending[k..] + rest;
  }

  /** Past the end of s, an even number of inserted marker bytes skipped and then num more. */
  lemma SkipPastEnd(s: seq<u8>, n: nat, num: nat, markers: nat)
    requires 1 <= num <= 2 && n - num == |s| + 2 * markers
    ensures Skipped(s, n) == EndOfImage[num..]
  {
    DivModUnique(n - |s|, 2, markers + num / 2, num % 2);
  }

  /**
   * What the skip loop knows about the stream: before the end of the
   * file, the buffer and the unread file are the original stream from the
   * bytes skipped so far; past it, the buffer holds an inserted marker
   * pair and every byte skipped beyond the stream was a marker byte.
   */
  ghost predicate SkipState(s: seq<u8>, n: nat, num: nat, eof: bool, markers: nat, pending: seq<u8>, rest: seq<u8>)
  {
    num <= n &&
    if eof then rest == [] && pending == EndOfImage && n - num == |s| + 2 * markers
    else n - num <= |s| && pending + rest == s[n - num..]
  }

  /**
   * One refill of the skip loop: the buffered bytes are dropped, and the
   * refill either brings the next bytes of the file (filled) or, at the
   * end of the file, one more marker pair.
   */
  lemma SkipStep(s: seq<u8>, n: nat, num: nat, eof: bool, markers: nat, pending: seq<u8>, rest: seq<u8>,
                 filled: bool, pending': seq<u8>, rest': seq<u8>) returns (markers': nat)
    requires SkipState(s, n, num, eof, markers, pending, rest) && |pending| < num
    requires filled <==> rest != []
    requires filled ==> pending' + rest' == rest
    requires !filled ==> rest' == [] && pending' == EndOfImage
    ensures SkipState(s, n, num - |pending|, eof || !filled, markers', pending', rest')
  {
    if eof {
      markers' := markers + 1;
    } else {
      markers' := 0;
      DropPending(s, n - num, pending, rest, |pending|);
    }
  }

  /** The last step of a skip: num more bytes of the buffer, from a state the skip loop keeps. */
  lemma SkipEnd(s: seq<u8>, n: nat, num: nat, eof: bool, markers: nat, pending: seq<u8>, rest: seq<u8>)
    requires SkipState(s, n, num, eof, markers, pending, rest) && 0 < num <= |pending|
    ensures pending[num..] + rest == Skipped(s, n)
  {
    if eof {
      SkipPastEnd(s, n, num, markers);
    } else {
      DropPending(s, n - num, pending, rest, num);
    }
  }

  lemma ParitySum(x: nat, y: nat)
    ensures (x + y) % 2 == (x % 2 + y % 2) % 2
  {
    DivModUnique(x + y, 2, x / 2 + y / 2 + (x % 2 + y % 2) / 2, (x % 2 + y % 2) % 2);
  }

  class Source {
    const file: seq<u8>
    const buffer: array<u8>
    var pos: nat
    var nextInput: nat
    var bytesInBuffer: nat
    var startOfFile: bool

    ghost predicate Valid()
      reads this
    {
      buffer.Length == BufSize && nextInput + bytesInBuffer <= BufSize && pos <= |file|
    }

    /** The bytes the decoder may still read from the buffer. */
    ghost function Pending(): (r: seq<u8>)
      reads this, buffer
      requires Valid()
      ensures |r| == bytesInBuffer
    {
      buffer[nextInput .. nextInput + bytesInBuffer]
    }

    /** The stream as the decoder will see it: the unread buffer, then the unread file. */
    ghost function Remaining(): seq<u8>
      reads this, buffer
      requires Valid()
    {
      Pending() + file[pos..]
    }

    /** jpeg_corefile_source::source followed by do_init: an empty buffer at the start of the file. */
    constructor (contents: seq<u8>)
      ensures Valid() && file == contents && pos == 0 && startOfFile
      ensures bytesInBuffer == 0 && Remaining() == contents
    {
      file := contents;
      buffer := new u8[BufSize];
      pos, nextInput, bytesInBuffer := 0, 0, 0;
      startOfFile := true;
      new;
      assert Pending() == [];
    }

    /** infile->read(buffer, INPUT_BUF_SIZE, nbytes): the next bytes of the file, at most a buffer's worth. */
    method Read() returns (nbytes: nat)
      requires Valid()
      modifies this`pos, buffer
      ensures Valid() && nbytes == Min(BufSize, |file| - old(pos)) && pos == old(pos) + nbytes
      ensures buffer[..nbytes] == file[old(pos) .. pos] && buffer[nbytes..] == old(buffer[nbytes..])
    {
      nbytes := Min(BufSize, |file| - pos);
      var i := 0;
      while i < nbytes
        invariant pos == old(pos) && i <= nbytes
        invariant buffer[..i] == file[pos .. pos + i] && buffer[i..] == old(buffer[i..])
      {
        buffer[i] := file[pos + i];
        i := i + 1;
      }
      pos := pos + nbytes;
    }

    /**
     * do_fill: refill the buffer from the file. An exhausted file yields
     * the end-of-image marker, unless nothing has been read yet, which
     * is fatal.
     */
    method Fill() returns (status: FillStatus)
      requires Valid()
      modifies this, buffer
      ensures Valid()
      ensures status == InputEmpty <==> old(startOfFile) && old(pos) == |file|
      ensures status == EndInserted <==> !old(startOfFile) && old(pos) == |file|
      ensures status == InputEmpty ==> unchanged(this) && buffer[..] == old(buffer[..])
      ensures status == EndInserted ==> Pending() == EndOfImage && pos == |file|
      ensures status == Filled ==>
        pos == old(pos) + Min(BufSize, |file| - old(pos)) && Pending() == file[old(pos) .. pos] && Remaining() == file[old(pos)..]
      ensures status != InputEmpty ==> !startOfFile && nextInput == 0 && 0 < bytesInBuffer
    {
      var nbytes := Read();
      if nbytes == 0 {
        if startOfFile {
          return InputEmpty;
        }
        buffer[0] := 0xFF;
        buffer[1] := 0xD9;
        nbytes := 2;
        status := EndInserted;
      } else {
        status := Filled;
      }
      nextInput := 0;
      bytesInBuffer := nbytes;
      startOfFile := false;
      if status == Filled {
        assert Remaining() == file[old(pos) .. pos] + file[pos..];
      } else {
        assert Pending() == [buffer[0], buffer[1]];
      }
    }

    /**
     * do_skip: drop numBytes bytes of the stream, refilling the buffer
     * as often as needed. Past the end of the file the inserted markers
     * are skipped like data. ok is false when the refill fails because
     * the file is empty from the start.
     */
    method Skip(numBytes: int) returns (ok: bool)
      requires Valid()
      modifies this, buffer
      ensures Valid()
      ensures !ok <==> 0 < numBytes && old(startOfFile) && old(pos) == |file| && old(bytesInBuffer) < numBytes
      ensures numBytes <= 0 ==> unchanged(this) && buffer[..] == old(buffer[..])
      ensures ok && 0 < numBytes ==> Remaining() == Skipped(old(Remaining()), numBytes)
    {
      ok := true;
      if 0 < numBytes {
        ghost var s := Remaining();
        ghost var eof := false;
        ghost var markers: nat := 0;
        var num: nat := numBytes;
        while bytesInBuffer < num
          invariant Valid() && 0 < num <= numBytes
          invariant SkipState(s, numBytes, num, eof, markers, Pending(), file[pos..])
          invariant eof ==> !startOfFile
          invariant startOfFile ==>
            old(startOfFile) && num == numBytes && pos == old(pos) && bytesInBuffer == old(bytesInBuffer)
          invariant !startOfFile ==> !old(startOfFile) || old(pos) < |file| || old(bytesInBuffer) >= numBytes
          decreases num + (if bytesInBuffer == 0 then 1 else 0)
        {
          ghost var pending, rest := Pending(), file[pos..];
          num := num - bytesInBuffer;
          var status := Fill();
          if status == InputEmpty {
            return false;
          }
          ghost var filled := status == Filled;
          if !filled {
            assert file[pos..] == [];
          }
          markers := SkipStep(s, numBytes, num + |pending|, eof, markers, pending, rest, filled, Pending(), file[pos..]);
          eof := eof || !filled;
        }
        ghost var pending, rest := Pending(), file[pos..];
        nextInput := nextInput + num;
        bytesInBuffer := bytesInBuffer - num;
        assert Remaining() == pending[num..] + rest;
        SkipEnd(s, numBytes, num, eof, markers, pending, rest);
      }
    }
  }
}
