/** The RSA cipher object: conversions by way of hexadecimal strings, padding written in place. */
module RsaCipher {
  import opened Bytes
  import opened Modular
  import opened Rsa
  import opened Wrappers

  /** _u8ArrayToBigInt of a non-empty array. */
  method U8ArrayToBigInt(arr: seq<byte>) returns (n: nat)
    ensures n == BigEndian(arr)
  {
    var hex: seq<Hex> := [];
    for i := 0 to |arr|
      invariant hex == HexOfBytes(arr[..i])
    {
      assert arr[..i + 1][..i] == arr[..i];
      hex := hex + [arr[i] / 16, arr[i] % 16];
    }
    assert arr[..|arr|] == arr;
    HexOfBytesValue(arr);
    n := HexValue(hex);
  }

  /** _bigIntToU8Array, for every number and pad length. An array made with half a byte of room has
      none for it, so the last of an odd number of digits is dropped. */
  method BigIntToU8Array(n: nat, padLength: nat) returns (arr: seq<byte>)
    ensures padLength > 0 && n < Pow2(8 * padLength) ==> arr == ToBigEndian(n, padLength)
    ensures padLength == 0 ==> |arr| == 2 * ((|ToHex(n)| + 1) / 2) && BigEndian(arr) == n
    ensures padLength > 0 && n >= Pow2(8 * padLength) ==>
              |arr| == |ToHex(n)| / 2 && BigEndian(arr) == if |ToHex(n)| % 2 == 0 then n else n / 16
  {
    hide Pow2, ToHex, ToBigEndian, PadStart, Pairs, BigEndian;
    var hex := ToHex(n);
    var pad := if padLength == 0 then (|hex| + 1) / 2 * 2 else padLength;
    if padLength == 0 {
      DefaultRoute(n);
    } else if n < Pow2(8 * padLength) {
      HexRoute(n, padLength);
    } else {
      TooLargeRoute(n, padLength);
    }
    hex := PadStart(hex, pad * 2);
    var length := |hex| / 2;
    arr := [];
    NoPairs(hex);
    for i := 0 to length
      invariant arr == Pairs(hex[..2 * i])
    {
      NextPair(hex, i);
      arr := arr + [hex[2 * i] as nat * 16 + hex[2 * i + 1]];
    }
    assert |hex| % 2 == 0 ==> hex[..2 * length] == hex;
  }

  lemma NoPairs(hex: seq<Hex>)
    ensures |hex[..0]| == 0 && Pairs(hex[..0]) == []
  {
  }

  lemma NextPair(hex: seq<Hex>, i: nat)
    requires 2 * i + 2 <= |hex|
    ensures Pairs(hex[..2 * (i + 1)]) == Pairs(hex[..2 * i]) + [hex[2 * i] as nat * 16 + hex[2 * i + 1]]
  {
    assert hex[..2 * (i + 1)][..2 * i] == hex[..2 * i];
  }

  class Cipher {
    const keyBytes: nat
    var n: nat
    var e: nat
    var d: nat

    constructor (keyLength: nat)
      ensures keyBytes == (keyLength + 7) / 8 && n == e == d == 0
    {
      keyBytes := (keyLength + 7) / 8;
      n, e, d := 0, 0, 0;
    }

    /** A key of the wrong size is ignored. */
    method SetPublicKey(modulus: seq<byte>, exponent: seq<byte>)
      modifies this
      ensures d == old(d)
      ensures if |modulus| == |exponent| == keyBytes then n == BigEndian(modulus) && e == BigEndian(exponent)
              else n == old(n) && e == old(e)
    {
      if |modulus| != keyBytes || |exponent| != keyBytes {
        return;
      }
      n := U8ArrayToBigInt(modulus);
      e := U8ArrayToBigInt(exponent);
    }

    /** random is what getRandomValues puts into the padding. */
    method Encrypt(message: seq<byte>, random: seq<byte>) returns (c: Option<seq<byte>>)
      requires 0 < n < Pow2(8 * keyBytes) && keyBytes > 0
      requires |random| == if |message| + 3 <= keyBytes then keyBytes - |message| - 3 else 0
      ensures c == Encrypted(n, e, keyBytes, message, random)
    {
      hide Pow2, Pow, ToBigEndian, BigEndian;
      if |message| + 11 > keyBytes {
        return None;
      }
      ghost var want := seq(|random|, i requires 0 <= i < |random| => Stretch(random[i]));
      var em := new byte[keyBytes](_ => 0);
      em[1] := 2;
      for i := 0 to |random|
        invariant em[0] == 0 && em[1] == 2
        invariant forall k :: 0 <= k < i ==> em[2 + k] == Stretch(random[k])
        invariant forall k :: 2 + i <= k < keyBytes ==> em[k] == 0
      {
        em[2 + i] := Stretch(random[i]);
      }
      var at := |random| + 3;
      for j := 0 to |message|
        invariant em[0] == 0 && em[1] == 2
        invariant forall k :: 0 <= k < |random| ==> em[2 + k] == Stretch(random[k])
        invariant em[at - 1] == 0
        invariant forall k :: 0 <= k < j ==> em[at + k] == message[k]
      {
        em[at + j] := message[j];
      }
      assert em[..] == Padded(want, message);
      var m := U8ArrayToBigInt(em[..]);
      var x := ModPow(m, e, n);
      var bytes := BigIntToU8Array(x, keyBytes);
      c := Some(bytes);
    }

    method Decrypt(message: seq<byte>) returns (r: Option<seq<byte>>)
      requires 0 < n < Pow2(8 * keyBytes) && keyBytes > 0
      ensures r == Decrypted(n, d, keyBytes, message)
    {
      hide Pow2, Pow, ToBigEndian, BigEndian;
      if |message| != keyBytes {
        return None;
      }
      var c := U8ArrayToBigInt(message);
      var x := ModPow(c, d, n);
      var em := BigIntToU8Array(x, keyBytes);
      if |em| < 2 || em[0] != 0 || em[1] != 2 {
        return None;
      }
      var i := 2;
      while i < |em| && em[i] != 0
        invariant 2 <= i <= |em|
        invariant FirstZero(em, i) == FirstZero(em, 2)
      {
        i := i + 1;
      }
      if i == |em| {
        return None;
      }
      r := Some(em[i + 1..]);
    }
  }
}
