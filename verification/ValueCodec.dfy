/**
 * The order-preserving encoding of indexed values: byte order is value order
 * within a type and band order across types, and no encoding is a prefix of
 * another.
 */
module ValueCodec {
  import opened Values
  import Lex

  const TAG_NULL: byte := 0
  const TAG_BOOL: byte := 1
  const TAG_INT: byte := 2
  const TAG_FLOAT: byte := 3
  const TAG_STR: byte := 4

  /** The two's complement bits of an int64 with the sign bit flipped. */
  function IntBits(i: Int64): Uint64
  {
    var u := if i < 0 then i + TWO_64 else i;
    if u >= TWO_63 then u - TWO_63 else u + TWO_63
  }

  function IntOfBits(u: Uint64): Int64
  {
    var flipped := if u >= TWO_63 then u - TWO_63 else u + TWO_63;
    if flipped >= TWO_63 then flipped - TWO_64 else flipped
  }

  /** A negative float has all bits inverted, any other the sign bit set. */
  function FloatBits(f: F64): Uint64
  {
    var bits := (if f.neg then TWO_63 else 0) + f.mag;
    if f.neg then MAX_U64 - bits else bits + TWO_63
  }

  function FloatOfBits(u: Uint64): F64
  {
    var bits := if u >= TWO_63 then u - TWO_63 else MAX_U64 - u;
    if bits >= TWO_63 then F64(true, bits - TWO_63) else F64(false, bits)
  }

  /** Zero bytes are escaped as 00 FF; the end is 00 00. */
  function EscapeString(s: Bytes): Bytes
  {
    if s == [] then []
    else (if s[0] == 0 then [0, 255] else [s[0]]) + EscapeString(s[1..])
  }

  function OrderedString(s: Bytes): Bytes
  {
    EscapeString(s) + [0, 0]
  }

  /** The type tag: the bands of the index, in order. */
  function Band(v: Value): byte
    requires IsIndexable(v)
  {
    match v
    case Null => TAG_NULL
    case Bool(_) => TAG_BOOL
    case Int(_) => TAG_INT
    case Float(_) => TAG_FLOAT
    case Str(_) => TAG_STR
  }

  function Payload(v: Value): Bytes
    requires IsIndexable(v)
  {
    match v
    case Null => []
    case Bool(b) => [if b then 1 else 0]
    case Int(i) => Lex.BigEndian(IntBits(i), 8)
    case Float(f) => Lex.BigEndian(FloatBits(f), 8)
    case Str(s) => OrderedString(s)
  }

  function Encode(v: Value): Bytes
    requires IsIndexable(v)
  {
    [Band(v)] + Payload(v)
  }

  /** The encoding of every string that starts with s starts with these bytes. */
  function StringPrefix(s: Bytes): Bytes
  {
    [TAG_STR] + EscapeString(s)
  }

  // ----- Decoding -----

  datatype Decoded<T> = Ok(value: T, used: nat) | Short | BadEscape | BadTag

  function DecodeString(src: Bytes): Decoded<Bytes>
  {
    if src == [] then Short
    else if src[0] != 0 then Prepend([src[0]], 1, DecodeString(src[1..]))
    else if |src| == 1 then Short
    else if src[1] == 0 then Ok([], 2)
    else if src[1] == 255 then Prepend([0], 2, DecodeString(src[2..]))
    else BadEscape
  }

  function Prepend(head: Bytes, n: nat, d: Decoded<Bytes>): Decoded<Bytes>
  {
    if d.Ok? then Ok(head + d.value, n + d.used) else d
  }

  function Decode(src: Bytes): (d: Decoded<Value>)
    ensures d.Ok? ==> IsIndexable(d.value)
  {
    if src == [] then Short
    else if src[0] == TAG_NULL then Ok(Null, 1)
    else if src[0] == TAG_BOOL then (if |src| < 2 then Short else Ok(Bool(src[1] != 0), 2))
    else if src[0] == TAG_INT then
      (if |src| < 9 then Short else Ok(Int(IntOfBits(U64At(src))), 9))
    else if src[0] == TAG_FLOAT then
      (if |src| < 9 then Short else Ok(Float(FloatOfBits(U64At(src))), 9))
    else if src[0] == TAG_STR then
      (match DecodeString(src[1..])
       case Ok(s, n) => Ok(Str(s), 1 + n)
       case Short => Short
       case BadEscape => BadEscape
       case BadTag => BadTag)
    else BadTag
  }

  function U64At(src: Bytes): Uint64
    requires |src| >= 9
  {
    FromEight(src[1..9]);
    Lex.FromBigEndian(src[1..9])
  }

  lemma FromEight(b: Bytes)
    requires |b| == 8
    ensures Lex.FromBigEndian(b) < TWO_64
  {
    FromBounded(b);
    Lex.Power256Of8();
  }

  lemma {:induction false} FromBounded(b: Bytes)
    ensures Lex.FromBigEndian(b) < Lex.Power256(|b|)
  {
    if b != [] {
      FromBounded(b[..|b|-1]);
    }
  }

  lemma {:induction false} DecodeStringRoundTrip(s: Bytes, rest: Bytes)
    ensures DecodeString(OrderedString(s) + rest) == Ok(s, |OrderedString(s)|)
  {
    if s == [] {
      assert OrderedString(s) + rest == [0, 0] + rest;
    } else {
      DecodeStringRoundTrip(s[1..], rest);
      OrderedStep(s);
      DecodeStep(s[0], OrderedString(s[1..]) + rest);
      var head := if s[0] == 0 then [0, 255] else [s[0]];
      hide OrderedString, DecodeString;
      assert OrderedString(s) + rest == head + (OrderedString(s[1..]) + rest);
      assert s == [s[0]] + s[1..];
    }
  }

  lemma OrderedStep(s: Bytes)
    requires s != []
    ensures OrderedString(s) == (if s[0] == 0 then [0, 255] else [s[0]]) + OrderedString(s[1..])
  {
    assert EscapeString(s) == (if s[0] == 0 then [0, 255] else [s[0]]) + EscapeString(s[1..]);
  }

  lemma DecodeStep(c: byte, tail: Bytes)
    ensures DecodeString((if c == 0 then [0, 255] else [c]) + tail) ==
            Prepend([c], if c == 0 then 2 else 1, DecodeString(tail))
  {
    var head := if c == 0 then [0, 255] else [c];
    assert (head + tail)[|head|..] == tail;
  }

  /** Decoding from any suffix gives the value back and the exact length used. */
  lemma DecodeRoundTrip(v: Value, rest: Bytes)
    requires IsIndexable(v)
    ensures Decode(Encode(v) + rest) == Ok(v, |Encode(v)|)
  {
    hide Lex.BigEndian, Lex.FromBigEndian, DecodeString, OrderedString, Lex.Power256;
    var src := Encode(v) + rest;
    Lex.Power256Of8();
    match v
    case Int(i) =>
      assert src[1..9] == Lex.BigEndian(IntBits(i), 8);
      Lex.BigEndianRoundTrip(IntBits(i), 8);
      IntBitsOrder(i, i);
    case Float(f) =>
      assert src[1..9] == Lex.BigEndian(FloatBits(f), 8);
      Lex.BigEndianRoundTrip(FloatBits(f), 8);
      FloatBitsOrder(f, f);
    case Str(s) =>
      assert src[1..] == OrderedString(s) + rest;
      DecodeStringRoundTrip(s, rest);
    case _ =>
  }

  /** No encoding is a prefix of another, so a key's end of value is unambiguous. */
  lemma PrefixFree(v: Value, w: Value, x: Bytes, y: Bytes)
    requires IsIndexable(v) && IsIndexable(w)
    requires Encode(v) + x == Encode(w) + y
    ensures v == w && x == y
  {
    DecodeRoundTrip(v, x);
    DecodeRoundTrip(w, y);
    assert x == (Encode(v) + x)[|Encode(v)|..];
    assert y == (Encode(w) + y)[|Encode(w)|..];
  }

  // ----- Order -----

  /** totalOrder of IEEE 754-2008 section 5.10: -NaN < -inf < ... < -0 < +0 < ... < +inf < +NaN. */
  function TotalRank(f: F64): int
  {
    if f.neg then -1 - f.mag else f.mag
  }

  /** The order of the index. */
  predicate Before(v: Value, w: Value)
    requires IsIndexable(v) && IsIndexable(w)
  {
    match (v, w)
    case (Bool(a), Bool(b)) => !a && b
    case (Int(i), Int(j)) => i < j
    case (Float(f), Float(g)) => TotalRank(f) < TotalRank(g)
    case (Str(s), Str(t)) => Lex.Less(s, t)
    case _ => TypeRank(v) < TypeRank(w)
  }

  /** Nulls come first, then booleans, integers, floats and strings. */
  function TypeRank(v: Value): nat
    requires IsIndexable(v)
  {
    match v
    case Null => 0
    case Bool(_) => 1
    case Int(_) => 2
    case Float(_) => 3
    case Str(_) => 4
  }

  lemma IntBitsOrder(i: Int64, j: Int64)
    ensures IntBits(i) < IntBits(j) <==> i < j
    ensures IntOfBits(IntBits(i)) == i
  {
  }

  lemma FloatBitsOrder(f: F64, g: F64)
    ensures FloatBits(f) < FloatBits(g) <==> TotalRank(f) < TotalRank(g)
    ensures FloatOfBits(FloatBits(f)) == f
  {
  }

  lemma {:induction false} OrderedStringOrder(s: Bytes, x: Bytes, t: Bytes, y: Bytes)
    requires s != t
    ensures Lex.Less(OrderedString(s) + x, OrderedString(t) + y) <==> Lex.Less(s, t)
  {
    var a, b := OrderedString(s) + x, OrderedString(t) + y;
    if s == [] {
      StringHead(t, y);
      assert a == [0, 0] + x;
      TwoBytes(a, b);
    } else if t == [] {
      StringHead(s, x);
      assert b == [0, 0] + y;
      TwoBytes(a, b);
    } else if s[0] == t[0] {
      var head := if s[0] == 0 then [0, 255] else [s[0]];
      assert a == head + (OrderedString(s[1..]) + x);
      assert b == head + (OrderedString(t[1..]) + y);
      Lex.DropPrefix(head, OrderedString(s[1..]) + x, OrderedString(t[1..]) + y);
      assert s == [s[0]] + s[1..] && t == [t[0]] + t[1..];
      OrderedStringOrder(s[1..], x, t[1..], y);
    } else {
      StringHead(s, x);
      StringHead(t, y);
    }
  }

  /** How an encoded non-empty string begins. */
  lemma StringHead(s: Bytes, x: Bytes)
    requires s != []
    ensures var a := OrderedString(s) + x; |a| >= 2 && a[0] == s[0] && (s[0] == 0 ==> a[1] == 255)
  {
    assert OrderedString(s) + x == (if s[0] == 0 then [0, 255] else [s[0]]) + (OrderedString(s[1..]) + x);
  }

  lemma TwoBytes(a: Bytes, b: Bytes)
    requires |a| >= 2 && |b| >= 2 && (a[0] != b[0] || a[1] != b[1])
    ensures Lex.Less(a, b) <==> a[0] < b[0] || (a[0] == b[0] && a[1] < b[1])
  {
  }

  /** Byte order, whatever follows the values in a key, is index order. */
  lemma EncodeOrder(v: Value, x: Bytes, w: Value, y: Bytes)
    requires IsIndexable(v) && IsIndexable(w) && v != w
    ensures Lex.Less(Encode(v) + x, Encode(w) + y) <==> Before(v, w)
  {
    var a, b := Payload(v) + x, Payload(w) + y;
    assert Encode(v) + x == [Band(v)] + a && Encode(w) + y == [Band(w)] + b;
    if Band(v) == Band(w) {
      Lex.DropPrefix([Band(v)], a, b);
      PayloadOrder(v, x, w, y);
    } else {
      FirstByte([Band(v)] + a, [Band(w)] + b);
    }
  }

  lemma PayloadOrder(v: Value, x: Bytes, w: Value, y: Bytes)
    requires IsIndexable(v) && IsIndexable(w) && v != w && Band(v) == Band(w)
    ensures Lex.Less(Payload(v) + x, Payload(w) + y) <==> Before(v, w)
  {
    hide Lex.BigEndian, OrderedString, Lex.Less, IntBits, FloatBits, TotalRank;
    match (v, w)
    case (Int(i), Int(j)) =>
      IntBitsOrder(i, j);
      IntBitsOrder(j, i);
      EightOrder(IntBits(i), x, IntBits(j), y);
    case (Float(f), Float(g)) =>
      FloatBitsOrder(f, g);
      FloatBitsOrder(g, f);
      EightOrder(FloatBits(f), x, FloatBits(g), y);
    case (Str(s), Str(t)) =>
      OrderedStringOrder(s, x, t, y);
    case (Bool(p), Bool(q)) =>
      FirstByte(Payload(v) + x, Payload(w) + y);
    case _ =>
  }

  lemma FirstByte(a: Bytes, b: Bytes)
    requires a != [] && b != [] && a[0] != b[0]
    ensures Lex.Less(a, b) <==> a[0] < b[0]
  {
  }

  lemma EightOrder(n: Uint64, x: Bytes, m: Uint64, y: Bytes)
    requires n != m
    ensures Lex.Less(Lex.BigEndian(n, 8) + x, Lex.BigEndian(m, 8) + y) <==> n < m
  {
    Lex.Power256Of8();
    Lex.BigEndianOrder(n, m, 8);
    Lex.SameLength(Lex.BigEndian(n, 8), x, Lex.BigEndian(m, 8), y);
  }

  lemma {:induction false} EscapePrefix(s: Bytes, t: Bytes, rest: Bytes)
    ensures s <= t <==> EscapeString(s) <= OrderedString(t) + rest
  {
    var b := OrderedString(t) + rest;
    if s == [] {
    } else if t == [] {
      assert b == [0, 0] + rest;
      assert EscapeString(s)[0] == s[0] && (s[0] == 0 ==> EscapeString(s)[1] == 255);
    } else {
      StringHead(t, rest);
      if s[0] == t[0] {
        EscapePrefix(s[1..], t[1..], rest);
        var head := if s[0] == 0 then [0, 255] else [s[0]];
        assert s == [s[0]] + s[1..] && t == [t[0]] + t[1..];
        assert EscapeString(s) == head + EscapeString(s[1..]);
        assert b == head + (OrderedString(t[1..]) + rest);
        SharedHead(head, EscapeString(s[1..]), OrderedString(t[1..]) + rest);
        SharedHead([s[0]], s[1..], t[1..]);
      } else {
        assert EscapeString(s)[0] == s[0];
      }
    }
  }

  lemma SharedHead<T>(h: seq<T>, a: seq<T>, b: seq<T>)
    ensures h + a <= h + b <==> a <= b
  {
    assert (h + a)[|h|..] == a && (h + b)[|h|..] == b;
    if h + a <= h + b {
      assert a == (h + b)[..|h + a|][|h|..] == b[..|a|];
    }
  }

  /** A string starts with s exactly when its encoding, in any key, starts with StringPrefix(s). */
  lemma StringPrefixExact(s: Bytes, v: Value, rest: Bytes)
    requires IsIndexable(v)
    ensures StringPrefix(s) <= Encode(v) + rest <==> v.Str? && s <= v.s
  {
    var p, b := StringPrefix(s), Encode(v) + rest;
    assert p[0] == TAG_STR && b[0] == Band(v);
    if v.Str? {
      EscapePrefix(s, v.s, rest);
      SharedHead([TAG_STR], EscapeString(s), OrderedString(v.s) + rest);
      assert b == [TAG_STR] + (OrderedString(v.s) + rest);
    }
  }

  // ----- The loops of the source -----

  method AppendOrderedString(dst: Bytes, s: Bytes) returns (r: Bytes)
    ensures r == dst + OrderedString(s)
  {
    r := dst;
    assert s[0..] == s;
    for i := 0 to |s|
      invariant r + EscapeString(s[i..]) == dst + EscapeString(s)
    {
      assert s[i..][1..] == s[i+1..];
      ghost var was := r;
      if s[i] == 0 {
        r := r + [0, 255];
      } else {
        r := r + [s[i]];
      }
      assert was + EscapeString(s[i..]) == r + EscapeString(s[i+1..]);
    }
    assert s[|s|..] == [] && r + [] == r;
    r := r + [0, 0];
  }

  lemma PrependTwice(b: Bytes, i: nat, c: Bytes, n: nat, d: Decoded<Bytes>)
    ensures Prepend(b, i, Prepend(c, n, d)) == Prepend(b + c, i + n, d)
  {
    if d.Ok? {
      assert b + (c + d.value) == b + c + d.value;
    }
  }

  method DecodeOrderedString(src: Bytes) returns (d: Decoded<Bytes>)
    ensures d == DecodeString(src)
  {
    var b: Bytes := [];
    var i := 0;
    assert src[0..] == src;
    assert DecodeString(src).Ok? ==> [] + DecodeString(src).value == DecodeString(src).value;
    while i < |src|
      invariant 0 <= i <= |src|
      invariant Prepend(b, i, DecodeString(src[i..])) == DecodeString(src)
      decreases |src| - i
    {
      assert src[i..][1..] == src[i+1..];
      var c := src[i];
      if c != 0 {
        PrependTwice(b, i, [c], 1, DecodeString(src[i+1..]));
        b := b + [c];
        i := i + 1;
        continue;
      }
      if i + 1 >= |src| {
        return Short;
      }
      assert src[i..][2..] == src[i+2..];
      if src[i+1] == 0 {
        assert b + [] == b;
        return Ok(b, i + 2);
      } else if src[i+1] == 255 {
        PrependTwice(b, i, [0], 2, DecodeString(src[i+2..]));
        b := b + [0];
        i := i + 2;
      } else {
        return BadEscape;
      }
    }
    return Short;
  }
}
