/** Ordered scans of a set of keys, as the storage engines provide them. */
module KeyScan {
  import opened Seqs
  import opened Values
  import Lex

  ghost predicate SortedKeys(ks: seq<Bytes>)
  {
    forall i, j :: 0 <= i < j < |ks| ==> Lex.Less(ks[i], ks[j])
  }

  predicate InRange(prefix: Bytes, start: Bytes, k: Bytes)
  {
    prefix <= k && Lex.Leq(start, k)
  }

  /** ks are, in order, the keys under prefix that are not before start. */
  ghost predicate IsScan(keys: set<Bytes>, prefix: Bytes, start: Bytes, ks: seq<Bytes>)
  {
    SortedKeys(ks) && forall k :: k in ks <==> k in keys && InRange(prefix, start, k)
  }

  lemma SortedDistinct(ks: seq<Bytes>)
    requires SortedKeys(ks)
    ensures NoDups(ks)
  {
    forall i, j | 0 <= i < j < |ks| ensures ks[i] != ks[j] {
      Lex.Irreflexive(ks[i]);
    }
  }

  /** A set of keys has one ordered enumeration. */
  lemma {:induction false} SortedUnique(a: seq<Bytes>, b: seq<Bytes>)
    requires SortedKeys(a) && SortedKeys(b) && forall k :: k in a <==> k in b
    ensures a == b
  {
    assert (a != [] ==> a[0] in a) && (b != [] ==> b[0] in b);
    if a != [] && b != [] {
      assert a[0] in b && b[0] in a;
      Lex.Trichotomy(a[0], b[0]);
      assert a[0] == b[0];
      SortedDistinct(a);
      SortedDistinct(b);
      forall k ensures k in a[1..] <==> k in b[1..] {
        assert k in a[1..] <==> k in a && k != a[0];
        assert k in b[1..] <==> k in b && k != b[0];
      }
      SortedUnique(a[1..], b[1..]);
      assert a == [a[0]] + a[1..] && b == [b[0]] + b[1..];
    }
  }

  function InsertKey(k: Bytes, ks: seq<Bytes>): seq<Bytes>
  {
    if ks == [] || Lex.Less(k, ks[0]) then [k] + ks else [ks[0]] + InsertKey(k, ks[1..])
  }

  lemma {:induction false} InsertKeyMembers(k: Bytes, ks: seq<Bytes>)
    ensures forall x :: x in InsertKey(k, ks) <==> x == k || x in ks
  {
    if ks != [] && !Lex.Less(k, ks[0]) {
      InsertKeyMembers(k, ks[1..]);
      assert ks == [ks[0]] + ks[1..];
    }
  }

  lemma {:induction false} InsertKeySorted(k: Bytes, ks: seq<Bytes>)
    requires SortedKeys(ks) && k !in ks
    ensures SortedKeys(InsertKey(k, ks))
  {
    if ks == [] {
    } else if Lex.Less(k, ks[0]) {
      forall j | 0 < j < |ks| ensures Lex.Less(k, ks[j]) {
        Lex.Transitive(k, ks[0], ks[j]);
      }
    } else {
      Lex.Trichotomy(k, ks[0]);
      InsertKeySorted(k, ks[1..]);
      InsertKeyMembers(k, ks[1..]);
      var rest := InsertKey(k, ks[1..]);
      forall j | 0 <= j < |rest| ensures Lex.Less(ks[0], rest[j]) {
        assert rest[j] in rest;
        if rest[j] != k {
          var i :| 0 <= i < |ks| - 1 && ks[1..][i] == rest[j];
        }
      }
    }
  }

  method ScanFrom(keys: set<Bytes>, prefix: Bytes, start: Bytes) returns (ks: seq<Bytes>)
    ensures IsScan(keys, prefix, start, ks)
  {
    ks := [];
    var rest := keys;
    while rest != {}
      invariant rest <= keys
      invariant SortedKeys(ks)
      invariant forall k :: k in ks <==> k in keys - rest && InRange(prefix, start, k)
      decreases rest
    {
      var k :| k in rest;
      if InRange(prefix, start, k) {
        InsertKeySorted(k, ks);
        InsertKeyMembers(k, ks);
        ks := InsertKey(k, ks);
      }
      rest := rest - {k};
    }
  }
}
