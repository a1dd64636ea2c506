/** A file read through a refillable buffer. */
module BufferedReading {
  import opened Bytes
  import opened CsvFile

  const EOF: int := -1

  /** A char of the source is signed. */
  function SignedChar(b: byte): int
  {
    if b < 0x80 then b as int else b as int - 0x100
  }

  class BufferedReader {
    const file: seq<byte>
    var fdPos: nat
    const readBuffer: array<byte>
    const bufferSize: nat
    var bufEnd: nat
    var readIdx: nat
    var offset: nat

    ghost predicate Valid()
      reads this, readBuffer
    {
      && 1 <= bufferSize == readBuffer.Length
      && readIdx <= bufEnd <= bufferSize
      && fdPos == offset + (bufEnd - readIdx)
      && (readIdx < bufEnd ==> fdPos <= |file| && readBuffer[readIdx..bufEnd] == file[offset..fdPos])
      && (bufEnd < bufferSize ==> fdPos >= |file|)
    }

    constructor (file: seq<byte>, bufferSize: nat)
      requires bufferSize >= 1
      ensures Valid() && offset == 0 && this.file == file && fresh(readBuffer)
    {
      this.file, this.bufferSize := file, bufferSize;
      readBuffer := new byte[bufferSize];
      fdPos, offset := 0, 0;
      bufEnd, readIdx := bufferSize, bufferSize;
    }

    /** fread of a whole buffer: short only at the end of the file, and empty beyond it. */
    method Fill() returns (count: nat)
      requires Valid() && fdPos == offset
      modifies this`fdPos, readBuffer
      ensures count <= bufferSize == readBuffer.Length && fdPos == offset + count
      ensures offset >= |file| ==> count == 0
      ensures offset < |file| ==> count == (if |file| - offset < bufferSize then |file| - offset else bufferSize)
      ensures offset < |file| ==> readBuffer[..count] == file[offset..fdPos]
    {
      count := if fdPos >= |file| then 0 else if |file| - fdPos < bufferSize then |file| - fdPos else bufferSize;
      forall i | 0 <= i < count {
        readBuffer[i] := file[fdPos + i];
      }
      fdPos := fdPos + count;
    }

    /** The next byte as a signed char, or EOF; nothing is consumed. */
    method Peek() returns (c: int)
      requires Valid()
      modifies this`fdPos, this`bufEnd, this`readIdx, readBuffer
      ensures Valid()
      ensures c == if offset < |file| then SignedChar(file[offset]) else EOF
      ensures offset >= |file| ==> c == -1
      ensures offset < |file| ==> c == (if file[offset] < 128 then file[offset] as int else file[offset] as int - 256)
      ensures offset < |file| ==> readIdx < bufEnd
    {
      if readIdx == bufEnd {
        if bufEnd == bufferSize {
          bufEnd := Fill();
          readIdx := 0;
          if bufEnd == 0 { return EOF; }
        } else {
          return EOF;
        }
      }
      assert readBuffer[readIdx] == readBuffer[readIdx..bufEnd][0];
      c := SignedChar(readBuffer[readIdx]);
    }

    /** fseek takes any offset, beyond the end of the file as well. */
    method Seek(o: nat)
      requires 1 <= bufferSize == readBuffer.Length
      modifies this`fdPos, this`offset, this`readIdx, this`bufEnd
      ensures Valid() && offset == o
    {
      fdPos := o;
      offset := o;
      readIdx, bufEnd := bufferSize, bufferSize;
    }

    /** The bytes up to the next comma or newline, which is consumed too. */
    method GetValue() returns (value: seq<byte>)
      requires Valid() && HasSeparator(file, offset)
      modifies this`fdPos, this`bufEnd, this`readIdx, this`offset, readBuffer
      ensures Valid()
      ensures value == Field(file, old(offset)) && offset == SeparatorAt(file, old(offset)) + 1
      ensures 44 !in value && 10 !in value && offset == old(offset) + |value| + 1 <= |file|
      ensures value == file[old(offset)..old(offset) + |value|]
      ensures file[old(offset) + |value|] == 44 || file[old(offset) + |value|] == 10
    {
      value := [];
      ghost var start := offset;
      while true
        invariant Valid() && start <= offset <= SeparatorAt(file, start)
        invariant value == file[start..offset]
        decreases |file| - offset
      {
        var c := NextByte();
        if IsSeparator(c) {
          break;
        }
        value := value + [c];
      }
    }

    /** One turn of the loop: refill if the buffer is used up, then take a byte. */
    method NextByte() returns (c: byte)
      requires Valid() && offset < |file|
      modifies this`fdPos, this`bufEnd, this`readIdx, this`offset, readBuffer
      ensures Valid() && c == file[old(offset)] && offset == old(offset) + 1
    {
      if readIdx == bufEnd {
        var ahead := Peek();
      }
      assert readBuffer[readIdx] == readBuffer[readIdx..bufEnd][0];
      c := readBuffer[readIdx];
      assert readBuffer[readIdx + 1..bufEnd] == readBuffer[readIdx..bufEnd][1..];
      readIdx := readIdx + 1;
      offset := offset + 1;
    }
  }

  /** Peek says end of file not only there, but also in front of a byte 0xFF. */
  lemma EofIsAmbiguous(file: seq<byte>, o: nat)
    ensures (if o < |file| then SignedChar(file[o]) else EOF) == EOF <==> EndsAt(file, o)
  {}
}
