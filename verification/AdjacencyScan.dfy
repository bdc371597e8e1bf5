/** Outgoing and incoming edges as prefix scans of the byte keys. */
module AdjacencyScan {
  import opened Seqs
  import opened Values
  import opened GraphStore
  import opened KeyCodec
  import opened KeyScan
  import opened IndexAccess
  import Adj = Adjacency
  import Lex

  function Field(key: Bytes, i: nat, j: nat): nat
    requires i <= j <= |key|
  {
    Lex.FromBigEndian(key[i..j])
  }

  function ParseOutKey(key: Bytes): Option<Adj.EdgeRef>
  {
    if |key| != 29 || key[0] != 'o' as byte then None
    else Some(Adj.EdgeRef(Field(key, 21, 29), Field(key, 9, 13), Field(key, 1, 9), Field(key, 13, 21)))
  }

  function ParseInKey(key: Bytes): Option<Adj.EdgeRef>
  {
    if |key| != 29 || key[0] != 'i' as byte then None
    else Some(Adj.EdgeRef(Field(key, 21, 29), Field(key, 9, 13), Field(key, 13, 21), Field(key, 1, 9)))
  }

  /** Four fields of 8, 4, 8 and 8 bytes read back. */
  lemma FieldsBack(tag: byte, a: nat, t: nat, b: nat, c: nat)
    requires a < TWO_64 && t <= MAX_U32 && b < TWO_64 && c < TWO_64
    ensures var key := [tag] + (U64(a) + U32(t) + U64(b) + U64(c));
            && |key| == 29 && key[0] == tag
            && Field(key, 1, 9) == a && Field(key, 9, 13) == t && Field(key, 13, 21) == b && Field(key, 21, 29) == c
  {
    hide Lex.BigEndian, Lex.FromBigEndian, Lex.Power256;
    var key := [tag] + (U64(a) + U32(t) + U64(b) + U64(c));
    assert key[1..9] == U64(a) && key[9..13] == U32(t) && key[13..21] == U64(b) && key[21..29] == U64(c);
    Lex.Power256Of4();
    Lex.Power256Of8();
    Lex.BigEndianRoundTrip(a, 8);
    Lex.BigEndianRoundTrip(t, 4);
    Lex.BigEndianRoundTrip(b, 8);
    Lex.BigEndianRoundTrip(c, 8);
  }

  lemma ParseOutKeyOf(e: Adj.EdgeRef)
    requires RefFits(e)
    ensures ParseOutKey(EncodeKey(OutK(e))) == Some(e)
  {
    FieldsBack('o' as byte, e.src, e.typ, e.dst, e.id);
  }

  lemma ParseInKeyOf(e: Adj.EdgeRef)
    requires RefFits(e)
    ensures ParseInKey(EncodeKey(InK(e))) == Some(e)
  {
    FieldsBack('i' as byte, e.dst, e.typ, e.src, e.id);
  }

  function OutScanPrefix(n: nat, typ: nat): Bytes
  {
    if typ == 0 then OutPrefixAll(n) else OutPrefix(n, typ)
  }

  function InScanPrefix(n: nat, typ: nat): Bytes
  {
    if typ == 0 then InPrefixAll(n) else InPrefix(n, typ)
  }

  lemma OutKeyFound(s: Store, n: nat, typ: nat, key: Bytes)
    requires Encodable(s) && n < TWO_64 && typ <= MAX_U32 && key in ByteKeys(s) && OutScanPrefix(n, typ) <= key
    ensures ParseOutKey(key).Some?
    ensures var e := ParseOutKey(key).value;
            e in s.outs && e.src == n && Adj.TypeMatches(typ, e.typ) && RefFits(e) && key == EncodeKey(OutK(e))
  {
    hide EncodeKey, ByteKeys, ParseOutKey, OutPrefixAll, OutPrefix;
    var k := KeyOfBytes(s, key);
    OutPrefixExact(k, n, typ);
    ParseOutKeyOf(k.e);
  }

  lemma InKeyFound(s: Store, n: nat, typ: nat, key: Bytes)
    requires Encodable(s) && n < TWO_64 && typ <= MAX_U32 && key in ByteKeys(s) && InScanPrefix(n, typ) <= key
    ensures ParseInKey(key).Some?
    ensures var e := ParseInKey(key).value;
            e in s.ins && e.dst == n && Adj.TypeMatches(typ, e.typ) && RefFits(e) && key == EncodeKey(InK(e))
  {
    hide EncodeKey, ByteKeys, ParseInKey, InPrefixAll, InPrefix;
    var k := KeyOfBytes(s, key);
    InPrefixExact(k, n, typ);
    ParseInKeyOf(k.e);
  }

  lemma OutKeyScanned(s: Store, n: nat, typ: nat, e: Adj.EdgeRef)
    requires Encodable(s) && n < TWO_64 && typ <= MAX_U32 && e in s.outs && e.src == n && Adj.TypeMatches(typ, e.typ)
    ensures RefFits(e) && EncodeKey(OutK(e)) in ByteKeys(s) && OutScanPrefix(n, typ) <= EncodeKey(OutK(e))
  {
    hide EncodeKey, ByteKeys, OutPrefixAll, OutPrefix;
    assert Has(s, OutK(e));
    ByteKey(s, OutK(e));
    OutPrefixExact(OutK(e), n, typ);
  }

  lemma InKeyScanned(s: Store, n: nat, typ: nat, e: Adj.EdgeRef)
    requires Encodable(s) && n < TWO_64 && typ <= MAX_U32 && e in s.ins && e.dst == n && Adj.TypeMatches(typ, e.typ)
    ensures RefFits(e) && EncodeKey(InK(e)) in ByteKeys(s) && InScanPrefix(n, typ) <= EncodeKey(InK(e))
  {
    hide EncodeKey, ByteKeys, InPrefixAll, InPrefix;
    assert Has(s, InK(e));
    ByteKey(s, InK(e));
    InPrefixExact(InK(e), n, typ);
  }

  /** The edges out of n of the type (0: of any type), each once. */
  method OutEdges(s: Store, n: nat, typ: nat) returns (out: seq<Adj.EdgeRef>)
    requires Encodable(s) && n < TWO_64 && typ <= MAX_U32
    ensures NoDups(out) && forall e :: e in out <==> e in s.outs && e.src == n && Adj.TypeMatches(typ, e.typ)
  {
    hide EncodeKey, ByteKeys, ParseOutKey, OutScanPrefix, Encodable, Lex.Less, RefFits, InRange, Adj.TypeMatches;
    out := [];
    AlwaysFrom(OutScanPrefix(n, typ));
    var ks := ScanFrom(ByteKeys(s), OutScanPrefix(n, typ), []);
    SortedDistinct(ks);
    for i := 0 to |ks|
      invariant |out| == i
      invariant forall j :: 0 <= j < i ==>
                  && out[j] in s.outs && out[j].src == n && Adj.TypeMatches(typ, out[j].typ)
                  && RefFits(out[j]) && ks[j] == KeyBytes(out[j], true)
    {
      OutKeyFound(s, n, typ, ks[i]);
      out := out + [ParseOutKey(ks[i]).value];
    }
    forall e | e in s.outs && e.src == n && Adj.TypeMatches(typ, e.typ) ensures e in out {
      OutKeyScanned(s, n, typ, e);
      var j :| 0 <= j < |ks| && ks[j] == KeyBytes(e, true);
      SameKey(e, out[j], true);
    }
  }

  /** The edges into n of the type (0: of any type), each once. */
  method InEdges(s: Store, n: nat, typ: nat) returns (out: seq<Adj.EdgeRef>)
    requires Encodable(s) && n < TWO_64 && typ <= MAX_U32
    ensures NoDups(out) && forall e :: e in out <==> e in s.ins && e.dst == n && Adj.TypeMatches(typ, e.typ)
  {
    hide EncodeKey, ByteKeys, ParseInKey, InScanPrefix, Encodable, Lex.Less, RefFits, InRange, Adj.TypeMatches;
    out := [];
    AlwaysFrom(InScanPrefix(n, typ));
    var ks := ScanFrom(ByteKeys(s), InScanPrefix(n, typ), []);
    SortedDistinct(ks);
    for i := 0 to |ks|
      invariant |out| == i
      invariant forall j :: 0 <= j < i ==>
                  && out[j] in s.ins && out[j].dst == n && Adj.TypeMatches(typ, out[j].typ)
                  && RefFits(out[j]) && ks[j] == KeyBytes(out[j], false)
    {
      InKeyFound(s, n, typ, ks[i]);
      out := out + [ParseInKey(ks[i]).value];
    }
    forall e | e in s.ins && e.dst == n && Adj.TypeMatches(typ, e.typ) ensures e in out {
      InKeyScanned(s, n, typ, e);
      var j :| 0 <= j < |ks| && ks[j] == KeyBytes(e, false);
      SameKey(e, out[j], false);
    }
  }

  function KeyBytes(e: Adj.EdgeRef, outgoing: bool): Bytes
    requires RefFits(e)
  {
    EncodeKey(if outgoing then OutK(e) else InK(e))
  }

  lemma SameKey(a: Adj.EdgeRef, b: Adj.EdgeRef, outgoing: bool)
    requires RefFits(a) && RefFits(b) && KeyBytes(a, outgoing) == KeyBytes(b, outgoing)
    ensures a == b
  {
    if outgoing {
      KeyInjective(OutK(a), OutK(b));
    } else {
      KeyInjective(InK(a), InK(b));
    }
  }

  lemma AlwaysFrom(prefix: Bytes)
    ensures forall k :: InRange(prefix, [], k) <==> prefix <= k
  {
  }

  /** What the scans return is what the traversals are proved to use. */
  lemma SameNeighbours(s: Store, g: Adj.Adj, n: nat, typ: nat, outs: seq<Adj.EdgeRef>, ins: seq<Adj.EdgeRef>)
    requires NoDups(g.outKeys) && NoDups(g.inKeys)
    requires (forall e :: e in g.outKeys <==> e in s.outs) && forall e :: e in g.inKeys <==> e in s.ins
    requires NoDups(outs) && forall e :: e in outs <==> e in s.outs && e.src == n && Adj.TypeMatches(typ, e.typ)
    requires NoDups(ins) && forall e :: e in ins <==> e in s.ins && e.dst == n && Adj.TypeMatches(typ, e.typ)
    ensures multiset(outs) == multiset(Adj.OutEdges(g.outKeys, n, typ))
    ensures multiset(ins) == multiset(Adj.InEdges(g.inKeys, n, typ))
  {
    hide Adj.OutEdges, Adj.InEdges, Adj.TypeMatches;
    forall e ensures multiset(outs)[e] == multiset(Adj.OutEdges(g.outKeys, n, typ))[e] {
      Adj.OutEdgesCount(g.outKeys, n, typ, e);
      NoDupsCount(g.outKeys, e);
      NoDupsCount(outs, e);
    }
    forall e ensures multiset(ins)[e] == multiset(Adj.InEdges(g.inKeys, n, typ))[e] {
      Adj.InEdgesCount(g.inKeys, n, typ, e);
      NoDupsCount(g.inKeys, e);
      NoDupsCount(ins, e);
    }
  }
}
