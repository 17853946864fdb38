/** Bytes, and little-endian unsigned integers of a fixed width. */
module LittleEndian {

  type Byte = b: int | 0 <= b < 256

  type Bytes = seq<Byte>

  /** One more than the largest unsigned integer of that width. */
  const U32: nat := 0x1_0000_0000
  const U64: nat := 0x1_0000_0000_0000_0000

  /** 256 to the power `n`: one more than the largest value of an `n`-byte field. */
  function Capacity(n: nat): (c: nat)
    ensures c > 0
  {
    if n == 0 then 1 else 256 * Capacity(n - 1)
  }

  /** The `n`-byte little-endian field holding the low bytes of `v`. */
  function Encode(v: nat, n: nat): (field: Bytes)
    ensures |field| == n
  {
    if n == 0 then [] else [v % 256] + Encode(v / 256, n - 1)
  }

  /** The bytes of `data` from `offset`, when all `n` of them are there. */
  predicate InBounds(data: Bytes, offset: nat, n: nat) {
    offset + n <= |data|
  }

  /** The value of a little-endian field. */
  function Decode(field: Bytes): nat {
    if field == [] then 0 else field[0] + 256 * Decode(field[1..])
  }

  /** The value of the `n`-byte field at `offset`. */
  function At(data: Bytes, offset: nat, n: nat): nat
    requires InBounds(data, offset, n)
  {
    Decode(data[offset..offset + n])
  }

  lemma {:induction false} DecodeIsBounded(field: Bytes)
    ensures Decode(field) < Capacity(|field|)
  {
    if field != [] {
      DecodeIsBounded(field[1..]);
    }
  }

  lemma AtIsBounded(data: Bytes, offset: nat, n: nat)
    requires InBounds(data, offset, n)
    ensures At(data, offset, n) < Capacity(n)
  {
    DecodeIsBounded(data[offset..offset + n]);
  }

  // ----- writing fields in place --------------------------------------------------------------

  datatype Write = Write(offset: nat, field: Bytes) {
    function End(): nat { offset + |field| }
  }

  /** `data` with the bytes of one field overwritten. */
  function Overwrite(data: Bytes, w: Write): (r: Bytes)
    requires InBounds(data, w.offset, |w.field|)
    ensures |r| == |data|
  {
    data[..w.offset] + w.field + data[w.End()..]
  }

  predicate AllInBounds(data: Bytes, ws: seq<Write>) {
    forall i :: 0 <= i < |ws| ==> InBounds(data, ws[i].offset, |ws[i].field|)
  }

  /** The writes performed one after the other. */
  function Apply(data: Bytes, ws: seq<Write>): (r: Bytes)
    requires AllInBounds(data, ws)
    ensures |r| == |data|
    decreases |ws|
  {
    if ws == [] then data else Apply(Overwrite(data, ws[0]), ws[1..])
  }

  lemma ApplyThree(data: Bytes, ws: seq<Write>)
    requires AllInBounds(data, ws) && |ws| >= 3
    ensures Apply(data, ws) == Apply(Overwrite(Overwrite(Overwrite(data, ws[0]), ws[1]), ws[2]), ws[3..])
  {
    var d1 := Overwrite(data, ws[0]);
    var d2 := Overwrite(d1, ws[1]);
    assert Apply(d1, ws[1..]) == Apply(d2, ws[1..][1..]);
    assert ws[1..][1..] == ws[2..] && ws[2..][1..] == ws[3..];
  }

  /** A byte that no write covers is left alone. */
  lemma {:induction false} ApplyKeeps(data: Bytes, ws: seq<Write>, k: nat)
    requires AllInBounds(data, ws) && k < |data|
    requires forall i :: 0 <= i < |ws| ==> k < ws[i].offset || ws[i].End() <= k
    ensures Apply(data, ws)[k] == data[k]
    decreases |ws|
  {
    if ws == [] {
    } else {
      ApplyKeeps(Overwrite(data, ws[0]), ws[1..], k);
    }
  }

  predicate Disjoint(ws: seq<Write>) {
    forall i, j :: 0 <= i < j < |ws| ==> ws[i].End() <= ws[j].offset || ws[j].End() <= ws[i].offset
  }

  /** Writes to disjoint fields all survive. */
  lemma {:induction false} ApplyHolds(data: Bytes, ws: seq<Write>, i: nat)
    requires AllInBounds(data, ws) && i < |ws|
    requires Disjoint(ws)
    ensures Apply(data, ws)[ws[i].offset..ws[i].End()] == ws[i].field
    decreases |ws|
  {
    var next := Overwrite(data, ws[0]);
    if i > 0 {
      ApplyHolds(next, ws[1..], i - 1);
    } else {
      var out := Apply(next, ws[1..]);
      forall k | ws[0].offset <= k < ws[0].End()
        ensures out[k] == ws[0].field[k - ws[0].offset]
      {
        ApplyKeeps(next, ws[1..], k);
      }
    }
  }

  /** Reading back what was written. */
  lemma {:induction false} DecodeEncode(v: nat, n: nat)
    requires v < Capacity(n)
    ensures Decode(Encode(v, n)) == v
  {
    if n == 0 {
    } else {
      assert v / 256 < Capacity(n - 1);
      DecodeEncode(v / 256, n - 1);
      assert Encode(v, n)[1..] == Encode(v / 256, n - 1);
    }
  }

  /** The byte at `i` of a little-endian field is digit `i` of the value to the base 256. */
  lemma {:induction false} LeastSignificantFirst(v: nat, n: nat, i: nat)
    requires i < n
    ensures Encode(v, n)[i] == v / Capacity(i) % 256
    decreases n
  {
    if i > 0 {
      LeastSignificantFirst(v / 256, n - 1, i - 1);
      DivideTwice(v, Capacity(i - 1));
    }
  }

  lemma DivideTwice(v: nat, d: nat)
    requires d > 0
    ensures v / 256 / d == v / (256 * d)
  {
    var q, r := v / 256 / d, v / 256 % d;
    assert v / 256 == q * d + r;
    assert v == 256 * (q * d + r) + v % 256;
    assert v == q * (256 * d) + (256 * r + v % 256);
    assert 256 * r + v % 256 < 256 * d;
    Quotient(v, 256 * d, q, 256 * r + v % 256);
  }

  lemma Quotient(v: nat, d: nat, q: nat, r: nat)
    requires v == q * d + r && r < d
    ensures v / d == q
  {
    var e: int := v / d - q;
    assert e * d == r - v % d;
    assert e >= 1 ==> e * d >= d;
    assert e <= -1 ==> e * d + d <= 0;
  }

  /** Writing back what was read. */
  lemma {:induction false} EncodeDecode(field: Bytes)
    ensures Encode(Decode(field), |field|) == field
    decreases |field|
  {
    if field != [] {
      var rest := Decode(field[1..]);
      EncodeDecode(field[1..]);
      assert Decode(field) % 256 == field[0] && Decode(field) / 256 == rest;
      hide Decode;
      assert field == [field[0]] + field[1..];
    }
  }

  lemma FourBytes(a: Byte, b: Byte, c: Byte, d: Byte, rest: Bytes)
    ensures Decode([a, b, c, d] + rest) == a + 0x100 * b + 0x1_0000 * c + 0x100_0000 * d + 0x1_0000_0000 * Decode(rest)
  {
    assert [a, b, c, d] + rest == [a] + ([b] + ([c] + ([d] + rest)));
    hide Decode;
    DecodeCons(d, rest);
    DecodeCons(c, [d] + rest);
    DecodeCons(b, [c] + ([d] + rest));
    DecodeCons(a, [b] + ([c] + ([d] + rest)));
  }

  lemma DecodeCons(b: Byte, rest: Bytes)
    ensures Decode([b] + rest) == b + 256 * Decode(rest)
  {
    assert ([b] + rest)[1..] == rest;
  }

  /** A field of eight bytes, spelled out. */
  lemma EightBytes(a: Byte, b: Byte, c: Byte, d: Byte, e: Byte, f: Byte, g: Byte, h: Byte)
    ensures Encode(a + 0x100 * b + 0x1_0000 * c + 0x100_0000 * d
                   + 0x1_0000_0000 * (e + 0x100 * f + 0x1_0000 * g + 0x100_0000 * h), 8) == [a, b, c, d, e, f, g, h]
  {
    hide Encode, Decode;
    FourBytes(a, b, c, d, [e, f, g, h]);
    FourBytes(e, f, g, h, []);
    EmptyField();
    assert [a, b, c, d] + [e, f, g, h] == [a, b, c, d, e, f, g, h];
    assert [e, f, g, h] + [] == [e, f, g, h];
    EncodeDecode([a, b, c, d, e, f, g, h]);
  }

  lemma EmptyField()
    ensures Decode([]) == 0
  {
  }
}
