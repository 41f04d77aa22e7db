/** Database keys of snapshots: a prefix byte, the height and the format, both big-endian. */
module SnapshotKeys {
  import opened Basics
  import opened ByteOrder

  function Pow256(k: nat): (r: nat)
    ensures r >= 1
  {
    if k == 0 then 1 else 256 * Pow256(k - 1)
  }

  type Uint64 = x: int | 0 <= x < 0x1_0000_0000_0000_0000
  type Uint32 = x: int | 0 <= x < 0x1_0000_0000

  const PREFIX: Byte := 0x01

  // ----- big-endian numbers -----

  function BigEndian(n: nat, k: nat): (r: Bytes)
    requires n < Pow256(k)
    ensures |r| == k
  {
    if k == 0 then [] else BigEndian(n / 256, k - 1) + [n % 256]
  }

  function FromBigEndian(b: Bytes): (r: nat)
    ensures r < Pow256(|b|)
  {
    if b == [] then 0 else 256 * FromBigEndian(b[..|b| - 1]) + b[|b| - 1]
  }

  lemma {:induction false} FromTo(n: nat, k: nat)
    requires n < Pow256(k)
    ensures FromBigEndian(BigEndian(n, k)) == n
  {
    if k > 0 {
      FromTo(n / 256, k - 1);
      assert BigEndian(n, k)[..k - 1] == BigEndian(n / 256, k - 1);
    }
  }

  lemma {:induction false} ToFrom(b: Bytes)
    ensures BigEndian(FromBigEndian(b), |b|) == b
  {
    if b != [] {
      ToFrom(b[..|b| - 1]);
    }
  }

  /** Big-endian numbers of one length are in numeric order. */
  lemma {:induction false} BigEndianOrder(n: nat, m: nat, k: nat)
    requires n < Pow256(k) && m < Pow256(k)
    ensures Less(BigEndian(n, k), BigEndian(m, k)) <==> n < m
    ensures BigEndian(n, k) == BigEndian(m, k) <==> n == m
  {
    FromTo(n, k);
    FromTo(m, k);
    if k > 0 {
      BigEndianOrder(n / 256, m / 256, k - 1);
      LessConcat(BigEndian(n / 256, k - 1), [n % 256], BigEndian(m / 256, k - 1), [m % 256]);
    }
  }

  // ----- keys -----

  lemma Widths()
    ensures Pow256(8) == 0x1_0000_0000_0000_0000 && Pow256(4) == 0x1_0000_0000
  {
    assert Pow256(4) == 0x1_0000_0000;
  }

  function EncodeKey(height: Uint64, format: Uint32): (key: Bytes)
    ensures |key| == 13
  {
    Widths();
    [PREFIX] + BigEndian(height, 8) + BigEndian(format, 4)
  }

  datatype Decoded = Decoded(height: Uint64, format: Uint32)

  function DecodeKey(key: Bytes): Result<Decoded> {
    if |key| != 13 then Err("invalid snapshot key length")
    else if key[0] != PREFIX then Err("invalid snapshot key prefix")
    else
      Widths();
      Ok(Decoded(FromBigEndian(key[1..9]), FromBigEndian(key[9..13])))
  }

  lemma DecodeEncode(height: Uint64, format: Uint32)
    ensures DecodeKey(EncodeKey(height, format)) == Ok(Decoded(height, format))
  {
    Widths();
    FromTo(height, 8);
    FromTo(format, 4);
    var key := EncodeKey(height, format);
    assert key[1..9] == BigEndian(height, 8) && key[9..13] == BigEndian(format, 4);
  }

  /** Every key that decodes is the encoding of what it decodes to. */
  lemma EncodeDecode(key: Bytes)
    requires DecodeKey(key).Ok?
    ensures EncodeKey(DecodeKey(key).value.height, DecodeKey(key).value.format) == key
  {
    ToFrom(key[1..9]);
    ToFrom(key[9..13]);
  }

  /** The layout: a byte 1, eight bytes of height and four of format, the highest first; nothing else is a key. */
  lemma KeyLayout(key: Bytes, height: Uint64, format: Uint32)
    ensures EncodeKey(height, format)[0] == 1
    ensures DecodeKey(key).Ok? <==> |key| == 13 && key[0] == 1
    ensures DecodeKey(key) == Ok(Decoded(height, format)) <==>
            |key| == 13 && key[0] == 1 && FromBigEndian(key[1..9]) == height && FromBigEndian(key[9..]) == format
  {
    if |key| == 13 {
      assert key[9..] == key[9..13];
    }
  }

  predicate Older(h: int, f: int, height: int, format: int) {
    h < height || (h == height && f < format)
  }

  /** Keys are ordered as their heights, then as their formats. */
  lemma KeyOrder(h: Uint64, f: Uint32, height: Uint64, format: Uint32)
    ensures Less(EncodeKey(h, f), EncodeKey(height, format)) <==> Older(h, f, height, format)
  {
    Widths();
    var a, b := [PREFIX] + BigEndian(h, 8), [PREFIX] + BigEndian(height, 8);
    LessConcat(a, BigEndian(f, 4), b, BigEndian(format, 4));
    LessConcat([PREFIX], BigEndian(h, 8), [PREFIX], BigEndian(height, 8));
    LessIrreflexive([PREFIX]);
    assert a == b <==> BigEndian(h, 8) == BigEndian(height, 8) by {
      assert a[1..] == BigEndian(h, 8) && b[1..] == BigEndian(height, 8);
    }
    BigEndianOrder(h, height, 8);
    BigEndianOrder(f, format, 4);
  }
}
