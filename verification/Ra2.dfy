/** The RA2 cipher objects: subkeys and codes computed byte by byte in place, and the counter field. */
module Ra2 {
  import opened Bytes
  import opened Cmac
  import opened Doubling
  import opened Eax
  import opened Wrappers

  lemma {:induction false} ShiftInAt(s: seq<byte>, two: bool, c: nat, i: nat)
    requires c < (if two then 4 else 2) && i < |s|
    ensures ShiftIn(s, two, c)[i] == (if two then s[i] as nat * 4 else s[i] as nat * 2) % 256
                                     + (if i == |s| - 1 then c else if two then s[i + 1] / 64 else s[i + 1] / 128)
    decreases |s|
  {
    if i < |s| - 1 {
      var b := s[|s| - 1];
      ShiftInAt(s[..|s| - 1], two, if two then b / 64 else b / 128, i);
    }
  }

  class AESEAXCipher {
    const key: Key
    const k1: array<byte>
    const k2: array<byte>

    ghost predicate Valid()
      reads k1, k2
    {
      && k1.Length == 16 && k2.Length == 16 && k1 != k2
      && k1[..] == FirstKey(key.cipher(Zero())) && k2[..] == SecondKey(key.cipher(Zero()))
    }

    /** setKey, which computes the subkeys. */
    constructor (key: Key)
      ensures this.key == key && Valid() && fresh(k1) && fresh(k2)
    {
      this.key := key;
      k1 := new byte[16](_ => 0);
      k2 := new byte[16](_ => 0);
      new;
      InitCMAC();
    }

    method InitCMAC()
      requires k1.Length == 16 && k2.Length == 16 && k1 != k2
      modifies k1, k2
      ensures k1[..] == FirstKey(key.cipher(Zero())) && k2[..] == SecondKey(key.cipher(Zero()))
    {
      hide ShiftIn, FirstKey, SecondKey, XorByte, Lut;
      var l: Block := key.cipher(Zero());
      forall i | 0 <= i < 16 {
        k1[i] := l[i];
      }
      var v := k1[0] / 64;
      ShiftLoop(l);
      k2[14] := XorByte(k2[14], v / 2);
      k2[15] := XorByte(k1[15] as nat * 4 % 256, Lut(v));
      k1[15] := XorByte(k1[15] as nat * 2 % 256, Lut(v / 2));
      KeysAt(l, k1[..], k2[..]);
    }

    /** Both shifts in one pass: the second key is read off the first before that is overwritten. */
    method ShiftLoop(ghost l: Block)
      requires k1.Length == 16 && k2.Length == 16 && k1 != k2 && k1[..] == l
      modifies k1, k2
      ensures forall k :: 0 <= k < 15 ==> k1[k] == ShiftedByte(l, false, k) && k2[k] == ShiftedByte(l, true, k)
      ensures k1[15] == l[15]
    {
      for i := 0 to 15
        invariant forall k :: 0 <= k < i ==> k1[k] == ShiftedByte(l, false, k) && k2[k] == ShiftedByte(l, true, k)
        invariant forall k :: i <= k < 16 ==> k1[k] == l[k]
      {
        k2[i] := k1[i + 1] / 64 + k1[i] as nat * 4 % 256;
        k1[i] := k1[i + 1] / 128 + k1[i] as nat * 2 % 256;
      }
    }

    /** XORs a subkey into a block of the buffer. */
    method XorInto(buffer: array<byte>, at: nat, k: array<byte>)
      requires at + 16 <= buffer.Length && k.Length == 16 && buffer != k
      modifies buffer
      ensures buffer[..] == old(buffer[..at]) + XorBlock(old(buffer[at..at + 16]), k[..]) + old(buffer[at + 16..])
    {
      hide XorByte;
      for i := 0 to 16
        invariant forall j :: 0 <= j < buffer.Length ==>
                    buffer[j] == if at <= j < at + i then XorByte(old(buffer[j]), k[j - at]) else old(buffer[j])
      {
        buffer[at + i] := XorByte(buffer[at + i], k[i]);
      }
    }

    method ComputeCMAC(data: seq<byte>, prefixBlock: seq<byte>) returns (mac: Option<seq<byte>>)
      requires Valid()
      ensures |prefixBlock| != 16 ==> mac == None
      ensures |prefixBlock| == 16 ==> mac == Some(Mac(key.cipher, k1[..], k2[..], prefixBlock + data))
    {
      hide FirstKey, SecondKey, XorBlock, Mac, LastButOne;
      if |prefixBlock| != 16 {
        return None;
      }
      var n, m := |data| / 16, (|data| + 15) / 16;
      var r := |data| - n * 16;
      var cbcData := new byte[(m + 1) * 16](_ => 0);
      forall i | 0 <= i < 16 {
        cbcData[i] := prefixBlock[i];
      }
      forall i | 0 <= i < |data| {
        cbcData[16 + i] := data[i];
      }
      ghost var filled := cbcData[..];
      Mask(data, prefixBlock, cbcData, n, r, filled);
      OnePassIsMac(key.cipher, k1[..], k2[..], prefixBlock, data);
      mac := Some(LastButOne(key.cipher, cbcData[..]));
    }

    /** Masks the last block of the buffer with the subkey that its fill calls for. */
    method Mask(ghost data: seq<byte>, ghost prefix: Block, cbcData: array<byte>, n: nat, r: nat, ghost filled: seq<byte>)
      requires k1.Length == 16 && k2.Length == 16 && cbcData != k1 && cbcData != k2
      requires n == |data| / 16 && r == |data| % 16 && cbcData[..] == filled && FilledWith(prefix, data, filled)
      modifies cbcData
      ensures cbcData[..] == Masked(k1[..], k2[..], prefix, data)
    {
      hide XorBlock, Masked;
      MaskedIs(prefix, data, filled, k1[..], k2[..]);
      if r == 0 {
        XorInto(cbcData, n * 16, k1);
      } else {
        var at := (n + 1) * 16;
        cbcData[at + r] := 0x80;
        ghost var padded := filled[at + r := 0x80];
        assert cbcData[..] == padded;
        assert cbcData[..at] == padded[..at] == filled[..at];
        assert cbcData[at..at + 16] == padded[at..at + 16] == padded[at..];
        XorInto(cbcData, at, k2);
      }
    }

    /** The three codes of a message, XORed into its tag. */
    method TagOf(encrypted: seq<byte>, nCMAC: Block, adCMAC: Block) returns (tag: Block)
      requires Valid()
      ensures tag == XorBlock(Tag(key, 2, encrypted), XorBlock(nCMAC, adCMAC))
    {
      hide FirstKey, SecondKey, Mac, XorByte;
      var mac := ComputeCMAC(encrypted, Prefix(2));
      var bytes := mac.value;
      for i := 0 to 16
        invariant |bytes| == 16
        invariant forall j :: 0 <= j < 16 ==>
                    bytes[j] == if j < i then XorByte(mac.value[j], XorByte(nCMAC[j], adCMAC[j])) else mac.value[j]
      {
        bytes := bytes[i := XorByte(bytes[i], XorByte(nCMAC[i], adCMAC[i]))];
      }
      tag := bytes;
    }

    method Encrypt(message: seq<byte>, associatedData: seq<byte>, nonce: Block) returns (res: seq<byte>)
      requires Valid()
      ensures var s := Sealed(key, message, associatedData, nonce); res == s.0 + s.1
    {
      hide FirstKey, SecondKey, Mac, XorBlock;
      var nCMAC := ComputeCMAC(nonce, Prefix(0));
      var encrypted := key.encryptCtr(message, nCMAC.value);
      var adCMAC := ComputeCMAC(associatedData, Prefix(1));
      var mac := TagOf(encrypted, nCMAC.value, adCMAC.value);
      res := encrypted + mac;
    }

    method Decrypt(encrypted: seq<byte>, associatedData: seq<byte>, nonce: Block, mac: seq<byte>) returns (res: Option<seq<byte>>)
      requires Valid()
      ensures res == Opened(key, encrypted, associatedData, nonce, mac)
    {
      hide FirstKey, SecondKey, Mac, XorBlock;
      var nCMAC := ComputeCMAC(nonce, Prefix(0));
      var adCMAC := ComputeCMAC(associatedData, Prefix(1));
      var computedMac := TagOf(encrypted, nCMAC.value, adCMAC.value);
      if |computedMac| != |mac| {
        return None;
      }
      for i := 0 to |mac|
        invariant computedMac[..i] == mac[..i]
      {
        if computedMac[i] != mac[i] {
          return None;
        }
        assert computedMac[..i + 1] == computedMac[..i] + [computedMac[i]];
        assert mac[..i + 1] == mac[..i] + [mac[i]];
      }
      assert computedMac[..|mac|] == computedMac && mac[..|mac|] == mac;
      res := Some(key.decryptCtr(encrypted, nCMAC.value));
    }
  }

  /** The three prefix blocks. */
  function Prefix(n: byte): (b: Block) {
    Zero()[15 := n]
  }

  class RA2Cipher {
    const cipher: AESEAXCipher
    const counter: array<byte>

    ghost predicate Valid()
      reads cipher.k1, cipher.k2
    {
      cipher.Valid() && counter.Length == 16 && counter != cipher.k1 && counter != cipher.k2
    }

    constructor (key: Key)
      ensures Valid() && cipher.key == key && counter[..] == Zero()
      ensures fresh(cipher) && fresh(counter) && fresh(cipher.k1) && fresh(cipher.k2)
    {
      cipher := new AESEAXCipher(key);
      counter := new byte[16](_ => 0);
    }

    /** Adds one, carrying from the first byte on, and starts again after the last value. */
    method IncrementCounter()
      requires counter.Length == 16
      modifies counter
      ensures counter[..] == Increment(old(counter[..]))
    {
      ghost var s := counter[..];
      var i := 0;
      while i < 16
        invariant i <= 16
        invariant forall k :: 0 <= k < i ==> s[k] == 255 && counter[k] == 0
        invariant counter[i..] == s[i..]
      {
        var was := counter[i];
        ghost var later := counter[i..];
        counter[i] := if was == 255 then 0 else was + 1;
        assert counter[i + 1..] == later[1..];
        if was != 255 {
          CarryStops(s, i, counter[..]);
          return;
        }
        i := i + 1;
      }
      CarryStops(s, 16, counter[..]);
    }

    method MakeMessage(message: seq<byte>) returns (res: seq<byte>)
      requires Valid()
      modifies counter
      ensures Valid() && res == Made(cipher.key, old(counter[..]), message)
      ensures counter[..] == Increment(old(counter[..]))
    {
      hide Increment, Sealed;
      var ad := [|message| / 256 % 256, |message| % 256];
      var encrypted := cipher.Encrypt(message, ad, counter[..]);
      IncrementCounter();
      res := ad + encrypted;
    }

    /** The counter moves on even when the message is refused. */
    method ReceiveMessage(length: nat, encrypted: seq<byte>, mac: seq<byte>) returns (res: Option<seq<byte>>)
      requires Valid()
      modifies counter
      ensures Valid() && res == Opened(cipher.key, encrypted, LengthBytes(length), old(counter[..]), mac)
      ensures counter[..] == Increment(old(counter[..]))
    {
      hide Increment, Opened;
      var ad := [length / 256 % 256, length % 256];
      res := cipher.Decrypt(encrypted, ad, counter[..], mac);
      IncrementCounter();
    }
  }

  lemma {:induction false} CarryStops(s: seq<byte>, i: nat, t: seq<byte>)
    requires i <= |s| == |t|
    requires forall k :: 0 <= k < i ==> s[k] == 255 && t[k] == 0
    requires i < |s| ==> s[i] != 255 && t[i] == s[i] + 1 && t[i + 1..] == s[i + 1..]
    ensures t == Increment(s)
    decreases |s|
  {
    if i > 0 {
      assert s[1..][i - 1..] == s[i..] && t[1..][i - 1..] == t[i..];
      assert i < |s| ==> t[1..][i..] == s[1..][i..];
      CarryStops(s[1..], i - 1, t[1..]);
      assert t == [t[0]] + t[1..];
    } else if s != [] {
      assert t == [t[0]] + t[1..];
    }
  }

  /** A byte of the block shifted left, with the bits of the next byte coming in. */
  function ShiftedByte(l: Block, two: bool, i: nat): (b: byte)
    requires i < 16
  {
    var next := if i == 15 then 0 else if two then l[i + 1] / 64 else l[i + 1] / 128;
    (if two then l[i] as nat * 4 else l[i] as nat * 2) % 256 + next
  }

  lemma ShiftInIs(l: Block, two: bool)
    ensures forall i :: 0 <= i < 16 ==> ShiftIn(l, two, 0)[i] == ShiftedByte(l, two, i)
  {
    forall i | 0 <= i < 16
      ensures ShiftIn(l, two, 0)[i] == ShiftedByte(l, two, i)
    {
      ShiftInAt(l, two, 0, i);
    }
  }

  lemma {:induction false} KeysAt(l: Block, k1: seq<byte>, k2: seq<byte>)
    requires |k1| == |k2| == 16
    requires forall i :: 0 <= i < 15 ==> k1[i] == ShiftedByte(l, false, i)
    requires k1[15] == XorByte(ShiftedByte(l, false, 15), Lut(l[0] / 64 / 2))
    requires forall i :: 0 <= i < 14 ==> k2[i] == ShiftedByte(l, true, i)
    requires k2[14] == XorByte(ShiftedByte(l, true, 14), l[0] / 64 / 2)
    requires k2[15] == XorByte(ShiftedByte(l, true, 15), Lut(l[0] / 64))
    ensures k1 == FirstKey(l) && k2 == SecondKey(l)
  {
    hide XorByte, ShiftIn, Lut, ShiftedByte;
    ShiftInIs(l, false);
    ShiftInIs(l, true);
  }

  /** The buffer before it is masked: prefix, data, zeros. */
  ghost predicate FilledWith(prefix: Block, data: seq<byte>, filled: seq<byte>) {
    && |filled| == ((|data| + 15) / 16 + 1) * 16
    && (forall i :: 0 <= i < 16 ==> filled[i] == prefix[i])
    && (forall i :: 0 <= i < |data| ==> filled[16 + i] == data[i])
    && (forall i :: 16 + |data| <= i < |filled| ==> filled[i] == 0)
  }

  lemma Filled(prefix: Block, data: seq<byte>, filled: seq<byte>)
    requires FilledWith(prefix, data, filled)
    ensures filled[..16 + |data|] == prefix + data
  {
  }

  lemma {:induction false} MaskedIs(prefix: Block, data: seq<byte>, filled: seq<byte>, k1: Block, k2: Block)
    requires FilledWith(prefix, data, filled)
    ensures var n, r := |data| / 16, |data| % 16;
            Masked(k1, k2, prefix, data) ==
            if r == 0 then filled[..n * 16] + XorBlock(filled[n * 16..n * 16 + 16], k1)
            else filled[..(n + 1) * 16] + XorBlock(filled[(n + 1) * 16 + r := 0x80][(n + 1) * 16..], k2)
  {
    hide XorBlock;
    Filled(prefix, data, filled);
    var m := prefix + data;
    var n, r := |data| / 16, |data| % 16;
    var blocks := (|m| + 15) / 16;
    if r == 0 {
      assert blocks == n + 1;
      assert m[..16 * n] == filled[..16 * n] && BlockAt(m, n) == filled[n * 16..n * 16 + 16];
    } else {
      assert blocks == n + 2;
      var at := (n + 1) * 16;
      assert m[..at] == filled[..at];
      assert PadBlock(m[at..]) == filled[at + r := 0x80][at..];
    }
  }
}
