/** Base64 as it runs: a loop over groups of three bytes, and a loop over characters with a bit accumulator. */
module Base64Loops {
  import opened Base64
  import opened Bytes
  import opened Wrappers

  lemma {:induction false} EncodedGroups(data: seq<byte>, i: nat)
    requires i % 3 == 0 && i + 3 <= |data|
    ensures Encoded(data[i..]) == Group(data[i], data[i + 1], data[i + 2]) + Encoded(data[i + 3..])
  {
    var t := data[i..];
    assert t[3..] == data[i + 3..];
  }

  method Encode(data: seq<byte>) returns (result: string)
    ensures result == Encoded(data)
  {
    hide Encoded, Group, Digit, Tail;
    result := "";
    var length := |data|;
    var lengthpad := length % 3;
    var i := 0;
    assert data[0..] == data;
    while i < length - 2
      invariant i % 3 == 0 && i <= length
      invariant result + Encoded(data[i..]) == Encoded(data)
    {
      ghost var before := result;
      EncodedGroups(data, i);
      result := result + [Digit(data[i] / 4)];
      result := result + [Digit(data[i] % 4 * 16 + data[i + 1] / 16)];
      result := result + [Digit(data[i + 1] % 16 * 4 + data[i + 2] / 64)];
      result := result + [Digit(data[i + 2] % 64)];
      GroupIs(data[i], data[i + 1], data[i + 2]);
      assert result == before + Group(data[i], data[i + 1], data[i + 2]);
      i := i + 3;
    }
    var j := length - lengthpad;
    assert i == j;
    ghost var before := result;
    TailIs(data[j..]);
    if lengthpad == 2 {
      result := result + [Digit(data[j] / 4)];
      result := result + [Digit(data[j] % 4 * 16 + data[j + 1] / 16)];
      result := result + [Digit(data[j + 1] % 16 * 4)];
      result := result + [PAD];
      assert result == before + [Digit(data[j] / 4), Digit(data[j] % 4 * 16 + data[j + 1] / 16), Digit(data[j + 1] % 16 * 4), PAD];
    } else if lengthpad == 1 {
      result := result + [Digit(data[j] / 4)];
      result := result + [Digit(data[j] % 4 * 16)];
      result := result + [PAD];
      result := result + [PAD];
      assert result == before + [Digit(data[j] / 4), Digit(data[j] % 4 * 16), PAD, PAD];
    } else {
      assert result == before + "";
    }
  }

  lemma GroupIs(x: byte, y: byte, z: byte)
    ensures Group(x, y, z) == [Digit(x / 4), Digit(x % 4 * 16 + y / 16), Digit(y % 16 * 4 + z / 64), Digit(z % 64)]
  {
  }

  lemma TailIs(t: seq<byte>)
    requires |t| < 3
    ensures |t| == 0 ==> Encoded(t) == ""
    ensures |t| == 1 ==> Encoded(t) == [Digit(t[0] / 4), Digit(t[0] % 4 * 16), PAD, PAD]
    ensures |t| == 2 ==> Encoded(t) == [Digit(t[0] / 4), Digit(t[0] % 4 * 16 + t[1] / 16), Digit(t[1] % 16 * 4), PAD]
  {
  }

  /** A JavaScript array of the given length after `out` was written from its start: the rest is holes, and it grows if need be. */
  function Laid(out: seq<byte>, length: nat): (r: seq<Option<byte>>)
    ensures |r| == if |out| < length then length else |out|
  {
    seq(if |out| < length then length else |out|, i requires 0 <= i => if i < |out| then Some(out[i]) else None)
  }

  lemma Untouched(length: nat)
    ensures Laid([], length) == seq(length, i => None)
    ensures FeedAll(START, []) == START
  {
  }

  lemma LaidWrite(out: seq<byte>, length: nat, b: byte)
    ensures var r := Laid(out, length);
            Laid(out + [b], length) == if |out| < |r| then r[|out| := Some(b)] else r + [Some(b)]
  {
  }

  lemma FeedNext(data: string, offset: nat, i: nat)
    requires offset <= i < |data| && AccOk(START)
    ensures FeedAll(START, data[offset..i + 1]) == Feed(FeedAll(START, data[offset..i]), data[i])
  {
    assert data[offset..i + 1][..i - offset] == data[offset..i];
  }

  method Decode(data: string, offset: nat) returns (corrupted: bool, result: seq<Option<byte>>)
    requires offset <= |data|
    ensures corrupted == Decoded(data[offset..]).None?
    ensures !corrupted ==> result == Laid(Decoded(data[offset..]).value, ResultLength(data, offset))
  {
    hide Value, ResultLength, Laid, FeedAll;
    SmallPowers();
    Untouched(ResultLength(data, offset));
    hide Pow2;
    var resultLength := ResultLength(data, offset);
    result := seq(resultLength, i => None);
    var leftbits: nat, leftdata: nat := 0, 0;
    var idx, i := 0, offset;
    ghost var out: seq<byte> := [];
    assert data[offset..offset] == [];
    while i < |data|
      invariant offset <= i <= |data| && idx == |out| && AccOk(Acc(leftbits, leftdata, out))
      invariant FeedAll(START, data[offset..i]) == Acc(leftbits, leftdata, out)
      invariant result == Laid(out, resultLength)
    {
      FeedNext(data, offset, i);
      var c := Value(data[i]);
      var padding := data[i] == PAD;
      if c != -1 {
        leftdata := leftdata * 64 + c;
        leftbits := leftbits + 6;
        if leftbits >= 8 {
          leftbits := leftbits - 8;
          if !padding {
            var b := leftdata / Pow2(leftbits) % 256;
            LaidWrite(out, resultLength, b);
            result := if idx < |result| then result[idx := Some(b)] else result + [Some(b)];
            idx := idx + 1;
            out := out + [b];
          }
          leftdata := leftdata % Pow2(leftbits);
        }
      }
      i := i + 1;
    }
    assert data[offset..|data|] == data[offset..];
    corrupted := leftbits != 0;
  }

  /** Decoding what was encoded, wherever it starts, returns the bytes and leaves no hole. */
  method EncodeThenDecode(data: seq<byte>) returns (result: seq<Option<byte>>)
    ensures result == seq(|data|, i requires 0 <= i < |data| => Some(data[i]))
  {
    var text := Encode(data);
    var corrupted;
    RoundTrip(data);
    assert text[0..] == text;
    corrupted, result := Decode(text, 0);
  }
}
