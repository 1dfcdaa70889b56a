/** The browser side's receive queue: a byte array that grows, compacts in place and can be rolled
    back, proved to be a first-in-first-out byte sequence. */
module ReceiveQueue {
  import opened Bytes

  const MAX_RQ_GROW_SIZE: nat := 41943040  // 40 MiB

  /** The buffer size _expandCompactRQ settles on for `unread` bytes and `minFit` new ones. */
  function GrownSize(size: nat, unread: nat, minFit: nat): (r: nat)
    ensures size <= MAX_RQ_GROW_SIZE ==> r <= MAX_RQ_GROW_SIZE
    ensures size <= MAX_RQ_GROW_SIZE && unread + minFit <= MAX_RQ_GROW_SIZE ==> unread + minFit <= r
  {
    var required := (unread + minFit) * 8;
    var wanted := if size >= required then size else if size * 2 >= required then size * 2 else required;
    if wanted > MAX_RQ_GROW_SIZE then MAX_RQ_GROW_SIZE else wanted
  }

  /** _rQshift: the leading byte is shifted as a signed 32-bit number, so four bytes read as two's
      complement. */
  function ShiftedValue(s: seq<byte>): int
    requires |s| <= 4
  {
    var n := BigEndian(s) as int;
    if |s| == 4 && s[0] >= 128 then n - 0x1_0000_0000 else n
  }

  /** JavaScript's x << 8k for a byte x and k at most 3: the result is a signed 32-bit number. */
  function ShiftLeft(x: byte, k: nat): int
    requires k <= 3
  {
    var v := x * Pow2(8 * k);
    if v >= 0x8000_0000 then v - 0x1_0000_0000 else v
  }

  lemma {:induction false} SmallPowers()
    ensures Pow2(0) == 1 && Pow2(8) == 0x100 && Pow2(16) == 0x1_0000 && Pow2(24) == 0x100_0000 && Pow2(32) == 0x1_0000_0000
  {
    assert Pow2(8) == 256;
    Pow2Byte(1);
    Pow2Byte(2);
    Pow2Byte(3);
  }

  /** The value of a shift after its first k bytes. */
  function ShiftedSoFar(all: seq<byte>, k: nat): int
    requires k <= |all| <= 4
  {
    if k == 0 then 0 else ShiftedValue(all) - BigEndian(all[k..])
  }

  lemma {:induction false} ShiftEnds(all: seq<byte>)
    requires |all| <= 4
    ensures ShiftedSoFar(all, 0) == 0 && ShiftedSoFar(all, |all|) == ShiftedValue(all)
  {
  }

  /** One byte of a shift: the first may turn the result negative, the others add their weight. */
  lemma {:induction false} ShiftTurn(all: seq<byte>, k: nat)
    requires k < |all| <= 4
    ensures ShiftedSoFar(all, k + 1) == ShiftedSoFar(all, k) + ShiftLeft(all[k], |all| - 1 - k)
  {
    hide BigEndian;
    SmallPowers();
    hide Pow2;
    var tail := all[k..];
    BigEndianHead(tail);
    assert tail[1..] == all[k + 1..];
    BigEndianBound(tail[1..]);
    BigEndianBound(tail);
    assert k == 0 ==> tail == all;
  }

  /** The signed value agrees with the unsigned one exactly when the top bit is clear. */
  lemma {:induction false} ShiftedIsUnsigned(s: seq<byte>)
    requires |s| <= 4
    ensures ShiftedValue(s) == BigEndian(s) <==> (|s| < 4 || s[0] < 128)
    ensures |s| == 4 ==> -0x8000_0000 <= ShiftedValue(s) < 0x8000_0000
  {
    BigEndianBound(s);
    SmallPowers();
    if |s| == 4 {
      BigEndianHead(s);
      BigEndianBound(s[1..]);
    }
  }

  class Websock {
    var rQ: array<byte>
    var rQi: nat
    var rQlen: nat
    var rQbufferSize: nat

    ghost predicate Valid()
      reads this
    {
      rQi <= rQlen <= rQ.Length && rQ.Length == rQbufferSize <= MAX_RQ_GROW_SIZE
    }

    /** The unread bytes. */
    ghost function Contents(): seq<byte>
      reads this, rQ
      requires Valid()
    {
      rQ[rQi..rQlen]
    }

    constructor ()
      ensures Valid() && fresh(rQ) && Contents() == [] && rQi == 0
    {
      rQbufferSize := 1024 * 1024 * 4;
      rQ := new byte[1024 * 1024 * 4];
      rQi, rQlen := 0, 0;
    }

    /** copyWithin(0, start, end): the two ranges may overlap. */
    method CopyWithin(start: nat, end: nat)
      requires start <= end <= rQ.Length
      modifies rQ
      ensures rQ[..end - start] == old(rQ[start..end])
    {
      var k := 0;
      while k < end - start
        invariant 0 <= k <= end - start
        invariant rQ[..k] == old(rQ[start..start + k])
        invariant rQ[start + k..] == old(rQ[start + k..])
      {
        assert rQ[start + k] == rQ[start + k..][0] == old(rQ[start + k..])[0];
        rQ[k] := rQ[start + k];
        assert rQ[..k + 1] == rQ[..k] + [rQ[k]];
        assert old(rQ[start..start + k + 1]) == old(rQ[start..start + k]) + [old(rQ[start + k])];
        assert rQ[start + k + 1..] == old(rQ[start + k..])[1..];
        k := k + 1;
      }
    }

    /** A new array whose front holds the unread bytes. */
    method Reallocate(size: nat)
      requires rQi <= rQlen <= rQ.Length
      requires rQlen - rQi <= size
      modifies `rQ
      ensures fresh(rQ) && rQ.Length == size
      ensures rQ[..rQlen - rQi] == old(rQ[rQi..rQlen])
    {
      var larger := new byte[size];
      var i := 0;
      while i < rQlen - rQi
        invariant 0 <= i <= rQlen - rQi
        invariant rQ == old(rQ) && fresh(larger) && rQ[..] == old(rQ[..])
        invariant larger[..i] == rQ[rQi..rQi + i]
      {
        larger[i] := rQ[rQi + i];
        assert larger[..i + 1] == larger[..i] + [larger[i]];
        i := i + 1;
      }
      assert rQ[rQi..rQlen] == old(rQ[..])[rQi..rQlen];
      rQ := larger;
    }

    /** Moves the unread bytes to the front of a buffer that has room for minFit more. Fails, leaving the
        bytes alone, exactly when they would not fit below the clamp. */
    method ExpandCompact(minFit: nat) returns (ok: bool)
      requires Valid()
      modifies this, rQ
      ensures ok <==> |old(Contents())| + minFit <= MAX_RQ_GROW_SIZE
      ensures ok ==> Valid() && Contents() == old(Contents()) && rQi == 0 && minFit <= rQbufferSize - rQlen
      ensures ok ==> rQbufferSize == GrownSize(old(rQbufferSize), old(rQlen - rQi), minFit)
      ensures ok ==> rQ == old(rQ) || fresh(rQ)
      ensures !ok ==> rQbufferSize == MAX_RQ_GROW_SIZE && rQ == old(rQ) && rQ[..] == old(rQ[..]) && rQi == old(rQi) && rQlen == old(rQlen)
    {
      var requiredBufferSize := (rQlen - rQi + minFit) * 8;
      var resizeNeeded := rQbufferSize < requiredBufferSize;
      if resizeNeeded {
        rQbufferSize := if rQbufferSize * 2 >= requiredBufferSize then rQbufferSize * 2 else requiredBufferSize;
      }
      if rQbufferSize > MAX_RQ_GROW_SIZE {
        rQbufferSize := MAX_RQ_GROW_SIZE;
        if rQbufferSize - (rQlen - rQi) < minFit {
          return false;
        }
      }
      if resizeNeeded {
        Reallocate(rQbufferSize);
      } else {
        CopyWithin(rQi, rQlen);
      }
      rQlen := rQlen - rQi;
      rQi := 0;
      return true;
    }

    /** The typed array's set: copies u8 to position `at`. */
    method SetAt(at: nat, u8: seq<byte>)
      requires at + |u8| <= rQ.Length
      modifies rQ
      ensures rQ[..at] == old(rQ[..at]) && rQ[at..at + |u8|] == u8
    {
      var i := 0;
      while i < |u8|
        invariant 0 <= i <= |u8|
        invariant rQ[..at] == old(rQ[..at]) && rQ[at..at + i] == u8[..i]
      {
        rQ[at + i] := u8[i];
        assert rQ[at..at + i + 1] == rQ[at..at + i] + [u8[i]];
        i := i + 1;
      }
    }

    /** Appends a message. It is refused exactly when the unread bytes and the new ones exceed the clamp. */
    method DecodeMessage(u8: seq<byte>) returns (ok: bool)
      requires Valid()
      modifies this, rQ
      ensures ok <==> |old(Contents())| + |u8| <= MAX_RQ_GROW_SIZE
      ensures ok ==> Valid() && Contents() == old(Contents()) + u8 && (rQ == old(rQ) || fresh(rQ))
      ensures !ok ==> rQ == old(rQ) && rQ[..] == old(rQ[..]) && rQi == old(rQi) && rQlen == old(rQlen)
    {
      ok := true;
      if |u8| > rQbufferSize - rQlen {
        ok := ExpandCompact(|u8|);
        if !ok {
          return;
        }
      }
      SetAt(rQlen, u8);
      assert rQ[rQi..rQlen + |u8|] == rQ[rQi..rQlen] + rQ[rQlen..rQlen + |u8|];
      rQlen := rQlen + |u8|;
    }

    /** A message event: append, let the handler take some bytes, and start afresh when all are taken. */
    method RecvMessage(data: seq<byte>, taken: nat) returns (ok: bool)
      requires Valid()
      requires taken <= |Contents()| + |data|
      modifies this, rQ
      ensures ok <==> |old(Contents())| + |data| <= MAX_RQ_GROW_SIZE
      ensures ok ==> Valid() && Contents() == (old(Contents()) + data)[taken..]
      ensures ok && |old(Contents())| + |data| == taken > 0 ==> rQi == rQlen == 0
    {
      ok := DecodeMessage(data);
      if !ok {
        return;
      }
      if rQlen - rQi > 0 {
        SkipBytes(taken);
        if rQlen == rQi {
          rQlen := 0;
          rQi := 0;
        }
      }
    }

    /** True when fewer than num bytes are unread; then the last `goback` bytes read are put back.
        Backing up past the start of the array throws. */
    method Wait(num: nat, goback: nat) returns (wait: bool, ok: bool)
      requires Valid()
      modifies `rQi
      ensures wait <==> |old(Contents())| < num
      ensures ok <==> !wait || old(rQi) >= goback
      ensures wait && ok ==> rQi == old(rQi) - goback && Contents() == old(rQ[rQi - goback..rQi]) + old(Contents())
      ensures !wait || !ok ==> rQi == old(rQi) && Contents() == old(Contents())
    {
      wait, ok := rQlen - rQi < num, true;
      if wait && goback > 0 {
        if rQi < goback {
          ok := false;
          return;
        }
        rQi := rQi - goback;
      }
      assert rQ[rQi..rQlen] == rQ[rQi..old(rQi)] + rQ[old(rQi)..rQlen];
    }

    method SkipBytes(bytes: nat)
      requires Valid() && bytes <= |Contents()|
      modifies `rQi
      ensures rQi == old(rQi) + bytes && Contents() == old(Contents())[bytes..]
    {
      rQi := rQi + bytes;
    }

    method ShiftBytes(len: nat) returns (s: seq<byte>)
      requires Valid() && len <= |Contents()|
      modifies `rQi
      ensures Valid() && s == old(Contents())[..len] && Contents() == old(Contents())[len..] && rQi == old(rQi) + len
    {
      rQi := rQi + len;
      s := rQ[rQi - len..rQi];
    }

    /** rQshift8, rQshift16 and rQshift32: one byte at a time, most significant first. */
    method Shift(bytes: nat) returns (res: int)
      requires Valid() && bytes <= 4 && bytes <= |Contents()|
      modifies `rQi
      ensures res == ShiftedValue(old(Contents())[..bytes])
      ensures Valid() && Contents() == old(Contents())[bytes..] && rQi == old(rQi) + bytes
    {
      hide ShiftedValue, ShiftLeft, ShiftedSoFar;
      res := 0;
      var byte_ := bytes - 1;
      ghost var start, all := rQi, rQ[rQi..rQi + bytes];
      assert all == Contents()[..bytes];
      ShiftEnds(all);
      while byte_ >= 0
        invariant -1 <= byte_ < bytes
        invariant rQi == start + (bytes - 1 - byte_)
        invariant res == ShiftedSoFar(all, rQi - start)
      {
        ShiftTurn(all, rQi - start);
        res := res + ShiftLeft(rQ[rQi], byte_);
        rQi := rQi + 1;
        byte_ := byte_ - 1;
      }
    }

    /** Reading a message header of k bytes and then finding fewer than num bytes restores the start of
        the message: nothing has been consumed. */
    method ReadOrRollBack(k: nat, num: nat) returns (header: seq<byte>, wait: bool)
      requires Valid() && k <= |Contents()|
      modifies `rQi
      ensures header == old(Contents())[..k]
      ensures wait <==> |old(Contents())| < k + num
      ensures Valid() && Contents() == if wait then old(Contents()) else old(Contents())[k..]
    {
      var ok;
      header := ShiftBytes(k);
      wait, ok := Wait(num, k);
      assert old(rQ[rQi..rQi + k]) + old(Contents())[k..] == old(Contents());
    }
  }
}
