/** A connected socket whose reads return the peer's bytes in order but in pieces nobody controls. */
module Sockets {
  import opened Prelude

  datatype ReadResult = Data(bytes: Bytes) | WouldBlock | Eof | Fault

  class Socket {
    /** The bytes the peer will still send before it closes. */
    var wire: Bytes

    /** The bytes written so far. */
    var sent: Bytes

    /** How many reads have found nothing yet, how many reads have failed, and how many writes have failed. */
    ghost var blocks: nat
    ghost var readFaults: nat
    ghost var writeFaults: nat

    constructor (wire: Bytes)
      ensures this.wire == wire && sent == [] && blocks == 0 && readFaults == 0 && writeFaults == 0
    {
      this.wire := wire;
      sent := [];
      blocks, readFaults, writeFaults := 0, 0, 0;
    }

    /** Some non-empty prefix of what is to come, or nothing yet, or a fault; the end only when all has been read. */
    method Read(max: nat) returns (r: ReadResult)
      requires max > 0
      modifies this`wire, this`blocks, this`readFaults
      ensures r.Data? ==> 0 < |r.bytes| <= max && old(wire) == r.bytes + wire
      ensures !r.Data? ==> wire == old(wire)
      ensures r.Eof? ==> wire == []
      ensures blocks == old(blocks) + (if r.WouldBlock? then 1 else 0)
      ensures readFaults == old(readFaults) + (if r.Fault? then 1 else 0)
    {
      var mood: int := *;
      if mood == 0 {
        blocks := blocks + 1;
        return WouldBlock;
      } else if mood == 1 {
        readFaults := readFaults + 1;
        return Fault;
      } else if wire == [] {
        return Eof;
      }
      var n: int := *;
      n := if 0 < n <= Min(max, |wire|) then n else Min(max, |wire|);
      var bytes := wire[..n];
      wire := wire[n..];
      return Data(bytes);
    }

    /** All of `data`, or a fault after some of it. */
    method WriteAll(data: Bytes) returns (r: Result<()>)
      modifies this`sent, this`writeFaults
      ensures r.Ok? ==> sent == old(sent) + data && writeFaults == old(writeFaults)
      ensures r.Err? ==> r == Err(Io) && old(sent) <= sent <= old(sent) + data && writeFaults > old(writeFaults)
    {
      var fails: bool := *;
      if fails {
        var n: int := *;
        sent := sent + data[..if 0 <= n <= |data| then n else 0];
        writeFaults := writeFaults + 1;
        return Err(Io);
      }
      sent := sent + data;
      return Ok(());
    }

    method Flush() returns (r: Result<()>)
      modifies this`writeFaults
      ensures r.Ok? ==> writeFaults == old(writeFaults)
      ensures r.Err? ==> r == Err(Io) && writeFaults > old(writeFaults)
    {
      var fails: bool := *;
      if fails {
        writeFaults := writeFaults + 1;
      }
      return if fails then Err(Io) else Ok(());
    }
  }

  const BLANK_LINE: Bytes := [CR, LF, CR, LF]

  predicate BlankAt(buf: Bytes, i: nat) {
    i + 4 <= |buf| && buf[i..i + 4] == BLANK_LINE
  }

  /** Where the first blank line starts, which ends a header block. */
  function HeaderEnd(buf: Bytes): (at: Option<nat>)
    ensures at.Some? ==> BlankAt(buf, at.value)
  {
    if |buf| < 4 then None
    else if buf[..4] == BLANK_LINE then Some(0)
    else
      var later := HeaderEnd(buf[1..]);
      if later.None? then None else Some(later.value + 1)
  }

  /** A blank line once found is not moved by what follows it. */
  lemma {:induction false} HeaderEndStays(buf: Bytes, more: Bytes)
    requires HeaderEnd(buf).Some?
    ensures HeaderEnd(buf + more) == HeaderEnd(buf)
  {
    assert (buf + more)[..4] == buf[..4];
    if buf[..4] != BLANK_LINE {
      HeaderEndStays(buf[1..], more);
      assert (buf + more)[1..] == buf[1..] + more;
    }
  }

  /** No earlier position holds a blank line. */
  lemma {:induction false} HeaderEndIsFirst(buf: Bytes, i: nat)
    requires BlankAt(buf, i)
    ensures HeaderEnd(buf).Some? && HeaderEnd(buf).value <= i
  {
    if buf[..4] != BLANK_LINE {
      assert buf[1..][i - 1..i + 3] == buf[i..i + 4];
      HeaderEndIsFirst(buf[1..], i - 1);
    }
  }

  lemma SliceOfPrefix(buf: Bytes, more: Bytes, i: nat, j: nat)
    requires i <= j <= |buf|
    ensures (buf + more)[i..j] == buf[i..j]
  {
  }

  /** Where no blank line has been seen, one can only end further on. */
  lemma HeaderEndIsLater(buf: Bytes, more: Bytes)
    requires HeaderEnd(buf) == None
    ensures HeaderEnd(buf + more).Some? ==> HeaderEnd(buf + more).value + 4 > |buf|
  {
    var all := buf + more;
    if HeaderEnd(all).Some? && HeaderEnd(all).value + 4 <= |buf| {
      var at := HeaderEnd(all).value;
      assert BlankAt(all, at);
      SliceOfPrefix(buf, more, at, at + 4);
      HeaderEndIsFirst(buf, at);
    }
  }

  /** The scan the readers make over their buffer. */
  method FindHeaderEnd(buf: Bytes) returns (at: Option<nat>)
    ensures at == HeaderEnd(buf)
  {
    var i := 0;
    while i + 4 <= |buf|
      invariant forall j :: 0 <= j < i ==> !BlankAt(buf, j)
    {
      if BlankAt(buf, i) {
        HeaderEndIsFirst(buf, i);
        return Some(i);
      }
      i := i + 1;
    }
    return None;
  }
}
