/** Variable-length integers, seven bits to a byte, as encoding/binary writes them. */
module Varint {
  import opened Values

  /** What a parser found and the bytes after it. */
  datatype Parsed<T> = Parsed(value: T, rest: Bytes) | Malformed

  function AppendUvarint(n: nat): (b: Bytes)
    ensures b != []
  {
    if n < 128 then [n as byte] else [(n % 128 + 128) as byte] + AppendUvarint(n / 128)
  }

  /** The value from the k-th byte on; ten bytes are the limit and the tenth holds one bit. */
  function UvarintFrom(b: Bytes, k: nat): (r: Parsed<nat>)
    ensures r.Parsed? ==> |r.rest| < |b|
  {
    if b == [] || k >= 10 then Malformed
    else if b[0] < 128 then
      if k == 9 && b[0] > 1 then Malformed else Parsed(b[0] as nat, b[1..])
    else
      match UvarintFrom(b[1..], k + 1)
      case Parsed(v, rest) => Parsed((b[0] as nat - 128) + 128 * v, rest)
      case Malformed => Malformed
  }

  /** binary.Uvarint; whatever is parsed fits an uint64. */
  function ParseUvarint(b: Bytes): (r: Parsed<nat>)
    ensures r.Parsed? ==> |r.rest| < |b| && r.value < TWO_64
  {
    var r := UvarintFrom(b, 0);
    assert r.Parsed? ==> r.value < TWO_64 by {
      RoomOf0();
      if r.Parsed? {
        UvarintFromFits(b, 0);
      }
    }
    r
  }

  /** What the bytes from the k-th on can still hold: 64 - 7k bits. */
  function Room(k: nat): nat
    requires k <= 9
    decreases 9 - k
  {
    if k == 9 then 2 else 128 * Room(k + 1)
  }

  lemma RoomOf0()
    ensures Room(0) == TWO_64
  {
    assert Room(8) == 0x100;
    assert Room(7) == 0x8000;
    assert Room(6) == 0x40_0000;
    assert Room(5) == 0x2000_0000;
    assert Room(4) == 0x10_0000_0000;
    assert Room(3) == 0x800_0000_0000;
    assert Room(2) == 0x4_0000_0000_0000;
    assert Room(1) == 0x200_0000_0000_0000;
  }

  lemma RoomStep(n: nat, k: nat)
    requires k <= 9 && 128 <= n < Room(k)
    ensures k < 9 && n / 128 < Room(k + 1)
  {
  }

  lemma Digits(n: nat)
    ensures n % 128 + 128 * (n / 128) == n
  {
  }

  lemma {:induction false} UvarintFromBytes(n: nat, k: nat, t: Bytes)
    requires k <= 9 && n < Room(k)
    ensures UvarintFrom(AppendUvarint(n) + t, k) == Parsed(n, t)
    decreases 9 - k
  {
    var b := AppendUvarint(n) + t;
    if n < 128 {
      assert b[1..] == t;
    } else {
      RoomStep(n, k);
      assert b[1..] == AppendUvarint(n / 128) + t;
      UvarintFromBytes(n / 128, k + 1, t);
      Digits(n);
    }
  }

  lemma UvarintRoundTrip(n: nat, t: Bytes)
    requires n < TWO_64
    ensures ParseUvarint(AppendUvarint(n) + t) == Parsed(n, t)
  {
    RoomOf0();
    UvarintFromBytes(n, 0, t);
  }

  /** Whatever is parsed fits an uint64. */
  lemma {:induction false} UvarintFromFits(b: Bytes, k: nat)
    requires k <= 9 && UvarintFrom(b, k).Parsed?
    ensures UvarintFrom(b, k).value < Room(k)
    decreases 9 - k
  {
    if b[0] < 128 {
      RoomAtLeast(k);
    } else if k < 9 {
      UvarintFromFits(b[1..], k + 1);
    }
  }

  lemma {:induction false} RoomAtLeast(k: nat)
    requires k <= 9
    ensures k < 9 ==> Room(k) >= 128
    ensures Room(k) >= 2
    decreases 9 - k
  {
    if k < 9 {
      RoomAtLeast(k + 1);
    }
  }

  // ----- Signed integers -----

  function ZigZag(i: Int64): (u: Uint64)
  {
    if i >= 0 then 2 * i else -2 * i - 1
  }

  function UnZigZag(u: Uint64): (i: Int64)
    ensures ZigZag(i) == u
  {
    if u % 2 == 0 then u / 2 else -1 - u / 2
  }

  lemma ZigZagRoundTrip(i: Int64)
    ensures UnZigZag(ZigZag(i)) == i
  {
  }

  function ParseVarint(b: Bytes): (r: Parsed<Int64>)
    ensures r.Parsed? ==> |r.rest| < |b|
  {
    match ParseUvarint(b)
    case Malformed => Malformed
    case Parsed(u, rest) => Parsed(UnZigZag(u), rest)
  }

  lemma VarintRoundTrip(i: Int64, t: Bytes)
    ensures ParseVarint(AppendUvarint(ZigZag(i)) + t) == Parsed(i, t)
  {
    UvarintRoundTrip(ZigZag(i), t);
    ZigZagRoundTrip(i);
  }
}
