/** Byte strings in the order of the key-value store, and big-endian integers. */
module Lex {
  import opened Values

  /** bytes.Compare(a, b) < 0. */
  predicate Less(a: Bytes, b: Bytes)
  {
    b != [] && (a == [] || a[0] < b[0] || (a[0] == b[0] && Less(a[1..], b[1..])))
  }

  predicate Leq(a: Bytes, b: Bytes)
  {
    a == b || Less(a, b)
  }

  /** Less is decided by the first byte that differs, or by one ending first. */
  lemma {:induction false} LessExact(a: Bytes, b: Bytes)
    ensures Less(a, b) <==> exists i: nat :: FirstDifference(a, b, i)
  {
    if Less(a, b) {
      if a == [] || a[0] < b[0] {
        assert FirstDifference(a, b, 0);
      } else {
        LessExact(a[1..], b[1..]);
        var i: nat :| FirstDifference(a[1..], b[1..], i);
        assert a[..i+1] == [a[0]] + a[1..][..i] && b[..i+1] == [b[0]] + b[1..][..i];
        assert FirstDifference(a, b, i + 1);
      }
    }
    if i: nat :| FirstDifference(a, b, i) {
      if i > 0 {
        assert a[0] == a[..i][0] == b[..i][0] == b[0];
        assert a[1..][..i-1] == a[..i][1..] && b[1..][..i-1] == b[..i][1..];
        assert FirstDifference(a[1..], b[1..], i - 1);
        LessExact(a[1..], b[1..]);
      }
    }
  }

  ghost predicate FirstDifference(a: Bytes, b: Bytes, i: nat)
  {
    i <= |a| && i < |b| && a[..i] == b[..i] && (i == |a| || a[i] < b[i])
  }

  lemma {:induction false} Trichotomy(a: Bytes, b: Bytes)
    ensures Less(a, b) || a == b || Less(b, a)
    ensures !(Less(a, b) && Less(b, a)) && !Less(a, a)
  {
    Irreflexive(a);
    if a != [] && b != [] {
      Trichotomy(a[1..], b[1..]);
      assert a == [a[0]] + a[1..] && b == [b[0]] + b[1..];
    }
  }

  lemma {:induction false} Irreflexive(a: Bytes)
    ensures !Less(a, a)
  {
    if a != [] {
      Irreflexive(a[1..]);
    }
  }

  lemma {:induction false} Transitive(a: Bytes, b: Bytes, c: Bytes)
    requires Less(a, b) && Less(b, c)
    ensures Less(a, c)
  {
    if a != [] && a[0] == b[0] == c[0] {
      Transitive(a[1..], b[1..], c[1..]);
    }
  }

  /** A common prefix does not matter. */
  lemma {:induction false} DropPrefix(p: Bytes, a: Bytes, b: Bytes)
    ensures Less(p + a, p + b) <==> Less(a, b)
  {
    if p != [] {
      DropPrefix(p[1..], a, b);
      assert (p + a)[1..] == p[1..] + a && (p + b)[1..] == p[1..] + b;
    } else {
      assert p + a == a && p + b == b;
    }
  }

  /** A string sorts before its extensions. */
  lemma PrefixFirst(p: Bytes, a: Bytes)
    ensures Leq(p, p + a)
  {
    DropPrefix(p, [], a);
    assert p + [] == p;
  }

  /** Strings of the same length are ordered by where they first differ, whatever follows. */
  lemma {:induction false} SameLength(a: Bytes, x: Bytes, b: Bytes, y: Bytes)
    requires |a| == |b| && a != b
    ensures Less(a + x, b + y) <==> Less(a, b)
  {
    assert a[0] == b[0] ==> a[1..] != b[1..] by {
      assert a == [a[0]] + a[1..] && b == [b[0]] + b[1..];
    }
    assert (a + x)[1..] == a[1..] + x && (b + y)[1..] == b[1..] + y;
    if a[0] == b[0] {
      SameLength(a[1..], x, b[1..], y);
    }
  }

  // ----- Big-endian integers -----

  function Power256(k: nat): (p: nat)
    ensures p > 0
  {
    if k == 0 then 1 else 256 * Power256(k - 1)
  }

  function BigEndian(n: nat, k: nat): (r: Bytes)
    ensures |r| == k
  {
    if k == 0 then [] else BigEndian(n / 256, k - 1) + [(n % 256) as byte]
  }

  function FromBigEndian(b: Bytes): nat
  {
    if b == [] then 0 else 256 * FromBigEndian(b[..|b|-1]) + b[|b|-1] as nat
  }

  lemma {:induction false} BigEndianRoundTrip(n: nat, k: nat)
    requires n < Power256(k)
    ensures FromBigEndian(BigEndian(n, k)) == n
  {
    if k > 0 {
      BigEndianRoundTrip(n / 256, k - 1);
      var b := BigEndian(n, k);
      assert b[..k-1] == BigEndian(n / 256, k - 1);
    }
  }

  /** Big-endian integers sort by their bytes as they do by value. */
  lemma {:induction false} BigEndianOrder(n: nat, m: nat, k: nat)
    requires n < Power256(k) && m < Power256(k)
    ensures Less(BigEndian(n, k), BigEndian(m, k)) <==> n < m
    ensures BigEndian(n, k) == BigEndian(m, k) ==> n == m
  {
    BigEndianRoundTrip(n, k);
    BigEndianRoundTrip(m, k);
    if k > 0 {
      var a, b := BigEndian(n / 256, k - 1), BigEndian(m / 256, k - 1);
      var x, y := [(n % 256) as byte], [(m % 256) as byte];
      BigEndianOrder(n / 256, m / 256, k - 1);
      if a == b {
        DropPrefix(a, x, y);
      } else {
        SameLength(a, x, b, y);
      }
    } else {
      Irreflexive([]);
    }
  }

  lemma Power256Of4()
    ensures Power256(4) == 0x1_0000_0000
  {
  }

  lemma Power256Of8()
    ensures Power256(8) == 0x1_0000_0000_0000_0000
  {
    Power256Of4();
  }
}
