/**
 * The decoder as it runs: a reader that advances through a buffer. It never
 * reads past the end, stops on any input and returns what the record format
 * says the remaining bytes hold.
 */
module RecordReader {
  import opened Seqs
  import opened Values
  import opened Varint
  import opened GraphStore
  import opened RecordCodec
  import Lex

  /** A parse continued after x, with weight p, has been read. */
  ghost function Scaled(p: Parsed<nat>, x: nat, w: nat): Parsed<nat>
  {
    if p.Parsed? then Parsed(x + w * p.value, p.rest) else Malformed
  }

  lemma ScaledStep(b: Bytes, k: nat, x: nat, w: nat)
    requires b != [] && b[0] >= 128 && k < 10
    ensures Scaled(UvarintFrom(b, k), x, w) ==
            Scaled(UvarintFrom(b[1..], k + 1), x + Times(w, b[0] as nat - 128), 128 * w)
  {
    var d := b[0] as nat - 128;
    var p := UvarintFrom(b[1..], k + 1);
    if p.Parsed? {
      assert w * (d + 128 * p.value) == w * d + (128 * w) * p.value;
    }
  }

  lemma ScaledEnd(b: Bytes, k: nat, x: nat, w: nat)
    requires k <= 10 && (b != [] && k < 10 ==> b[0] < 128)
    ensures Scaled(UvarintFrom(b, k), x, w) ==
            if b == [] || k == 10 || (k == 9 && b[0] > 1) then Malformed else Parsed(x + Times(w, b[0] as nat), b[1..])
  {
  }

  lemma ScaledStart(b: Bytes)
    ensures ParseUvarint(b) == Scaled(UvarintFrom(b, 0), 0, 1)
  {
  }

  class Reader {
    const b: Bytes
    var i: nat

    ghost predicate Valid()
      reads this
    {
      i <= |b|
    }

    ghost function Left(): Bytes
      requires Valid()
      reads this
    {
      b[i..]
    }

    /** r is what was parsed, and the reader is after it. */
    ghost predicate Read<T>(p: Parsed<T>, r: Option<T>)
      reads this
    {
      Valid() && if p.Parsed? then r == Some(p.value) && Left() == p.rest else r == None
    }

    constructor (b: Bytes)
      ensures Valid() && Left() == b
    {
      this.b, i := b, 0;
    }

    method Uvarint() returns (r: Option<nat>)
      requires Valid()
      modifies this
      ensures Read(ParseUvarint(old(Left())), r) && i >= old(i)
      ensures r.Some? ==> i > old(i)
    {
      hide UvarintFrom, Scaled, ParseUvarint, Times;
      var x: nat, w: nat, k: nat := 0, 1, 0;
      ghost var start := Left();
      ScaledStart(start);
      while i + k < |b|
        invariant i == old(i) && i + k <= |b| && k <= 10
        invariant ParseUvarint(start) == Scaled(UvarintFrom(b[i+k..], k), x, w)
      {
        var c := b[i + k];
        assert b[i+k..][0] == c && b[i+k..][1..] == b[i+k+1..];
        if k == 10 || c < 128 {
          ScaledEnd(b[i+k..], k, x, w);
          if k == 10 || (k == 9 && c > 1) {
            return None;
          }
          r := Some(x + Times(w, c as nat));
          i := i + k + 1;
          return;
        }
        ScaledStep(b[i+k..], k, x, w);
        x := x + Times(w, c as nat - 128);
        w := 128 * w;
        k := k + 1;
      }
      ScaledEnd(b[i+k..], k, x, w);
      return None;
    }

    method Varint() returns (r: Option<Int64>)
      requires Valid()
      modifies this
      ensures Read(ParseVarint(old(Left())), r) && i >= old(i)
    {
      var u := Uvarint();
      if u.None? {
        return None;
      }
      r := Some(UnZigZag(u.value));
    }

    method Byte() returns (r: Option<byte>)
      requires Valid()
      modifies this
      ensures Valid()
      ensures if old(Left()) == [] then r == None && i == old(i)
              else r == Some(old(Left())[0]) && Left() == old(Left())[1..] && i == old(i) + 1
    {
      if i >= |b| {
        return None;
      }
      r := Some(b[i]);
      assert b[i..][1..] == b[i+1..];
      i := i + 1;
    }

    method Bytes(n: nat) returns (r: Option<Values.Bytes>)
      requires Valid()
      modifies this
      ensures Valid() && i >= old(i)
      ensures if n > |old(Left())| then r == None
              else r == Some(old(Left())[..n]) && Left() == old(Left())[n..] && i == old(i) + n
    {
      if n > |b| - i {
        return None;
      }
      r := Some(b[i..i+n]);
      assert b[i..][..n] == b[i..i+n] && b[i..][n..] == b[i+n..];
      i := i + n;
    }

    /** A count, refused when more items are announced than bytes are left. */
    method Count() returns (r: Option<nat>)
      requires Valid()
      modifies this
      ensures Read(ParseCount(old(Left())), r) && i >= old(i)
      ensures r.Some? ==> i > old(i)
    {
      r := Uvarint();
      if r.Some? && r.value > |b| - i {
        return None;
      }
    }

    method Value() returns (r: Option<Value>)
      requires Valid()
      modifies this
      ensures Read(ParseValue(old(Left())), r) && i >= old(i)
      ensures r.Some? ==> i > old(i)
      decreases |b| - i, 0
    {
      hide ParseUvarint, ParseCount, ParseVarint, ParseElems, ParseEntries;
      var tag := Byte();
      if tag.None? {
        return None;
      }
      if tag.value == REC_NULL {
        return Some(Null);
      }
      if tag.value == REC_BOOL {
        var x := Byte();
        return if x.None? then None else Some(Bool(x.value != 0));
      }
      if tag.value == REC_INT {
        var n := Varint();
        return if n.None? then None else Some(Int(n.value));
      }
      if tag.value == REC_FLOAT {
        var raw := Bytes(8);
        assert |old(Left())| >= 9 ==> old(Left())[1..][..8] == old(Left())[1..9]
                                      && old(Left())[1..][8..] == old(Left())[9..];
        return if raw.None? then None else Some(Float(FromBits(Lex.FromBigEndian(raw.value) % TWO_64)));
      }
      if tag.value == REC_STR {
        var n := Count();
        if n.None? {
          return None;
        }
        var raw := Bytes(n.value);
        return if raw.None? then None else Some(Str(raw.value));
      }
      if tag.value == REC_LIST {
        var n := Count();
        if n.None? {
          return None;
        }
        var es := Elems(n.value);
        return if es.None? then None else Some(List(es.value));
      }
      if tag.value == REC_MAP {
        var n := Count();
        if n.None? {
          return None;
        }
        var m := Entries(n.value);
        return if m.None? then None else Some(Map(m.value));
      }
      return None;
    }

    method Elems(n: nat) returns (r: Option<seq<Value>>)
      requires Valid()
      modifies this
      ensures Read(ParseElems(n, old(Left())), r) && i >= old(i)
      decreases |b| - i, 1
    {
      hide ParseValue;
      var es: seq<Value> := [];
      AfterNothing(ParseElems(n, Left()));
      for k := 0 to n
        invariant Valid() && i >= old(i)
        invariant ParseElems(n, old(Left())) == After(es, ParseElems(n - k, Left()))
      {
        ElemsStep(es, n - k, Left());
        var v := Value();
        if v.None? {
          return None;
        }
        es := es + [v.value];
      }
      assert es + [] == es;
      r := Some(es);
    }

    method Entries(n: nat) returns (r: Option<map<Values.Bytes, Values.Value>>)
      requires Valid()
      modifies this
      ensures Read(ParseEntries(n, old(Left()), map[]), r) && i >= old(i)
      decreases |b| - i, 1
    {
      hide ParseValue, ParseCount;
      var m: map<Values.Bytes, Values.Value> := map[];
      for k := 0 to n
        invariant Valid() && i >= old(i)
        invariant ParseEntries(n, old(Left()), map[]) == ParseEntries(n - k, Left(), m)
      {
        var len := Count();
        if len.None? {
          return None;
        }
        var key := Bytes(len.value);
        if key.None? {
          return None;
        }
        var v := Value();
        if v.None? {
          return None;
        }
        m := m[key.value := v.value];
      }
      r := Some(m);
    }

    method Props() returns (r: Option<GraphStore.Props>)
      requires Valid()
      modifies this
      ensures Read(DecodeProps(old(Left())), r)
    {
      hide ParseValue, ParseUvarint, ParseCount;
      var n := Count();
      if n.None? {
        return None;
      }
      var props: GraphStore.Props := map[];
      ghost var start := Left();
      for k := 0 to n.value
        invariant Valid()
        invariant ParseProps(n.value, start, map[]) == ParseProps(n.value - k, Left(), props)
      {
        var key := Uvarint();
        if key.None? {
          return None;
        }
        var v := Value();
        if v.None? {
          return None;
        }
        props := props[Truncate(key.value) := v.value];
      }
      r := Some(props);
    }

    method Labels(n: nat) returns (r: Option<seq<nat>>)
      requires Valid()
      modifies this
      ensures Read(ParseLabels(n, old(Left())), r)
    {
      hide ParseUvarint;
      var ls: seq<nat> := [];
      AfterNothing(ParseLabels(n, Left()));
      for k := 0 to n
        invariant Valid()
        invariant ParseLabels(n, old(Left())) == After(ls, ParseLabels(n - k, Left()))
      {
        LabelsStep(ls, n - k, Left());
        var l := Uvarint();
        if l.None? {
          return None;
        }
        ls := ls + [Truncate(l.value)];
      }
      assert ls + [] == ls;
      r := Some(ls);
    }
  }

  /** Items already read, then the items parsed. */
  ghost function After<T>(xs: seq<T>, p: Parsed<seq<T>>): Parsed<seq<T>>
  {
    if p.Parsed? then Parsed(xs + p.value, p.rest) else Malformed
  }

  lemma AfterNothing<T>(p: Parsed<seq<T>>)
    ensures After([], p) == p
  {
    if p.Parsed? {
      assert [] + p.value == p.value;
    }
  }

  lemma ElemsStep(es: seq<Value>, n: nat, b: Bytes)
    requires n > 0
    ensures After(es, ParseElems(n, b)) ==
            var p := ParseValue(b); if p.Parsed? then After(es + [p.value], ParseElems(n - 1, p.rest)) else Malformed
  {
    hide ParseValue;
    var p := ParseValue(b);
    if p.Parsed? && ParseElems(n - 1, p.rest).Parsed? {
      var vs := ParseElems(n - 1, p.rest).value;
      assert es + ([p.value] + vs) == (es + [p.value]) + vs;
    }
  }

  lemma LabelsStep(ls: seq<nat>, n: nat, b: Bytes)
    requires n > 0
    ensures After(ls, ParseLabels(n, b)) ==
            var p := ParseUvarint(b);
            if p.Parsed? then After(ls + [Truncate(p.value)], ParseLabels(n - 1, p.rest)) else Malformed
  {
    hide ParseUvarint;
    var p := ParseUvarint(b);
    if p.Parsed? && ParseLabels(n - 1, p.rest).Parsed? {
      var rest := ParseLabels(n - 1, p.rest).value;
      assert ls + ([Truncate(p.value)] + rest) == (ls + [Truncate(p.value)]) + rest;
    }
  }

  method ReadNode(b: Bytes) returns (rec: Option<NodeRec>)
    ensures rec == DecodeNode(b)
  {
    hide ParseCount, ParseLabels, DecodeProps;
    var r := new Reader(b);
    var n := r.Count();
    if n.None? {
      return None;
    }
    var ls := r.Labels(n.value);
    if ls.None? {
      return None;
    }
    var props := r.Props();
    return if props.None? then None else Some(NodeRec(ls.value, props.value));
  }

  method ReadEdge(b: Bytes) returns (rec: Option<EdgeRec>)
    ensures rec == DecodeEdge(b)
  {
    hide ParseUvarint, DecodeProps;
    var r := new Reader(b);
    var typ := r.Uvarint();
    if typ.None? {
      return None;
    }
    var src := r.Uvarint();
    if src.None? {
      return None;
    }
    var dst := r.Uvarint();
    if dst.None? {
      return None;
    }
    var props := r.Props();
    return if props.None? then None else Some(EdgeRec(Truncate(typ.value), src.value, dst.value, props.value));
  }
}
