/** The fixed-size character buffer of the logger. */
module FixedBuffers {

  /** memcpy lengths go through int: longer pieces are outside what the buffer is for. */
  const INT_LIMIT := 0x8000_0000

  /** A piece is copied only if it leaves at least one character free; otherwise it is dropped. */
  function Appended(contents: string, piece: string, size: nat): string {
    if size - |contents| > |piece| then contents + piece else contents
  }

  /** An empty buffer drops a piece of its own size, and takes one that is one character shorter. */
  lemma {:induction false} FullLengthIsDropped(piece: string)
    ensures Appended("", piece, |piece|) == "" && Appended("", piece, |piece| + 1) == piece
  {
  }

  class FixedBuffer {
    const data: array<char>
    var cur: nat

    ghost predicate Valid()
      reads this
    {
      cur <= data.Length
    }

    ghost function Contents(): (s: string)
      requires Valid()
      reads this, data
      ensures |s| == cur
    {
      data[..cur]
    }

    constructor (size: nat)
      ensures Valid() && fresh(data) && data.Length == size && Contents() == ""
    {
      data := new char[size];
      cur := 0;
    }

    method Avail() returns (n: nat)
      requires Valid()
      ensures n == data.Length - |Contents()|
    {
      n := data.Length - cur;
    }

    method Length() returns (n: nat)
      requires Valid()
      ensures n == |Contents()|
    {
      n := cur;
    }

    method Append(buf: string)
      requires Valid() && |buf| < INT_LIMIT
      modifies this`cur, data
      ensures Valid() && Contents() == Appended(old(Contents()), buf, data.Length)
    {
      if data.Length - cur > |buf| {
        forall i | 0 <= i < |buf| {
          data[cur + i] := buf[i];
        }
        cur := cur + |buf|;
      }
    }

    /** The cursor moves over len characters that were written behind it. */
    method Add(len: nat)
      requires Valid() && cur + len <= data.Length
      modifies this`cur
      ensures Valid() && cur == old(cur) + len
    {
      cur := cur + len;
    }

    method Reset()
      requires Valid()
      modifies this`cur
      ensures Valid() && Contents() == ""
    {
      cur := 0;
    }
  }
}
