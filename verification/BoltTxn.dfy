/** The transaction and iterator objects of the bbolt adapter. */
module BoltTxn {
  import opened Seqs
  import opened Values
  import opened KeyScan
  import opened BoltOverlay
  import Lex

  // ----- Steps of the merge -----

  lemma CursorStep(cs: seq<Entry>, ps: seq<Pending>)
    requires cs != [] && (ps == [] || Lex.Less(cs[0].key, ps[0].key))
    ensures Merge(cs, ps) == [cs[0]] + Merge(cs[1..], ps)
  {
  }

  lemma {:induction false} PendingStep(cs: seq<Entry>, ps: seq<Pending>)
    requires ps != [] && (cs == [] || Lex.Less(ps[0].key, cs[0].key))
    ensures Merge(cs, ps) == (if ps[0].val.Some? then [Entry(ps[0].key, ps[0].val.value)] else []) + Merge(cs, ps[1..])
  {
    Lex.Trichotomy(if cs == [] then [] else cs[0].key, ps[0].key);
  }

  /** A committed entry that a buffered write replaces can be passed first. */
  lemma ShadowStep(cs: seq<Entry>, ps: seq<Pending>)
    requires Sorted(cs) && cs != [] && ps != [] && cs[0].key == ps[0].key
    ensures Merge(cs, ps) == Merge(cs[1..], ps)
    ensures cs[1..] == [] || Lex.Less(ps[0].key, cs[1..][0].key)
  {
    Lex.Irreflexive(cs[0].key);
    PendingStep(cs[1..], ps);
  }

  lemma VisibleStep(cs: seq<Entry>, prefix: Bytes)
    requires Visible(cs, prefix) != []
    ensures cs != [] && Visible(cs, prefix)[0] == cs[0] && Visible(cs, prefix)[1..] == Visible(cs[1..], prefix)
  {
  }

  lemma {:induction false} VisibleSorted(cs: seq<Entry>, prefix: Bytes)
    requires Sorted(cs)
    ensures Sorted(Visible(cs, prefix)) && Visible(cs, prefix) <= cs
  {
    if cs != [] && prefix <= cs[0].key {
      VisibleSorted(cs[1..], prefix);
      assert cs == [cs[0]] + cs[1..];
      assert Visible(cs, prefix) <= cs;
    }
  }

  /** Which source the current entry comes from, or that both are exhausted. */
  datatype Spot = Nowhere | AtCursor | AtPending

  class MergeCursor {
    const prefix: Bytes
    var rest: seq<Entry>
    var pend: seq<Pending>
    var pi: nat
    var key: Option<Bytes>
    var val: Bytes
    var closed: bool

    ghost predicate Placed()
      reads this
    {
      pi <= |pend| && Sorted(rest) && SortedPending(pend)
    }

    ghost function Merged(): seq<Entry>
      requires Placed()
      reads this
    {
      Merge(Visible(rest, prefix), pend[pi..])
    }

    ghost predicate At(s: Spot)
      requires Placed()
      reads this
    {
      var cs := Visible(rest, prefix);
      match s
      case Nowhere => key == None && cs == [] && pi == |pend|
      case AtCursor =>
        cs != [] && key == Some(cs[0].key) && val == cs[0].val && (pi == |pend| || Lex.Less(cs[0].key, pend[pi].key))
      case AtPending =>
        && pi < |pend| && key == Some(pend[pi].key) && pend[pi].val == Some(val)
        && (cs == [] || Lex.Less(pend[pi].key, cs[0].key))
    }

    ghost predicate Ok()
      reads this
    {
      Placed() && (At(Nowhere) || At(AtCursor) || At(AtPending))
    }

    /** The entries the iterator still shows, the current one first. */
    ghost function Left(): seq<Entry>
      requires Ok()
      reads this
    {
      if closed then [] else Merged()
    }

    constructor (prefix: Bytes, rest: seq<Entry>, pend: seq<Pending>)
      requires Sorted(rest) && SortedPending(pend)
      ensures Ok() && Left() == Merge(Visible(rest, prefix), pend)
    {
      this.prefix, this.rest, this.pend := prefix, rest, pend;
      pi, key, val, closed := 0, None, [], false;
      new;
      assert pend[0..] == pend;
      Settle();
    }

    function CursorKey(): Option<Bytes>
      reads this
      ensures CursorKey().Some? <==> Visible(rest, prefix) != []
      ensures CursorKey().Some? ==> rest != [] && CursorKey() == Some(rest[0].key)
                                    && rest[0] == Visible(rest, prefix)[0]
    {
      if rest == [] || !(prefix <= rest[0].key) then None else Some(rest[0].key)
    }

    /** Moves to the next visible entry, consuming the sources as needed. */
    method Settle()
      requires Placed()
      modifies this
      ensures Ok() && Merged() == old(Merged()) && closed == old(closed)
    {
      hide Merge, Visible, Lex.Less, Sorted, SortedPending;
      while true
        invariant Placed() && Merged() == old(Merged()) && closed == old(closed)
        decreases |pend| - pi
      {
        var ck := CursorKey();
        if ck.None? && pi == |pend| {
          key, val := None, [];
          return;
        }
        if pi == |pend| || (ck.Some? && Lex.Less(ck.value, pend[pi].key)) {
          key, val := ck, rest[0].val;
          return;
        }
        var p := pend[pi];
        ghost var cs, ps := Visible(rest, prefix), pend[pi..];
        VisibleSorted(rest, prefix);
        if ck == Some(p.key) {
          ShadowStep(cs, ps);
          VisibleStep(rest, prefix);
          TailSorted(rest);
          rest := rest[1..];
          cs := cs[1..];
        } else if ck.Some? {
          Lex.Trichotomy(ck.value, p.key);
        }
        if p.val.None? {
          PendingStep(cs, ps);
          assert ps[1..] == pend[pi+1..];
          pi := pi + 1;
          continue;
        }
        key, val := Some(p.key), p.val.value;
        return;
      }
    }

    predicate Valid()
      reads this
    {
      !closed && key.Some?
    }

    /** The current entry is the first of what is left, and there is one exactly when Valid. */
    lemma Current()
      requires Ok()
      ensures Valid() <==> Left() != []
      ensures Valid() ==> Left()[0] == Entry(key.value, val)
    {
      var cs, ps := Visible(rest, prefix), pend[pi..];
      if At(AtCursor) {
        CursorStep(cs, ps);
      } else if At(AtPending) {
        PendingStep(cs, ps);
      }
    }

    method Next()
      requires Ok()
      modifies this
      ensures Ok() && closed == old(closed)
      ensures Left() == if old(Left()) == [] then [] else old(Left())[1..]
    {
      hide Merge, Visible, Sorted, SortedPending;
      Current();
      if !Valid() {
        return;
      }
      ghost var cs, ps := Visible(rest, prefix), pend[pi..];
      if pi < |pend| && key == Some(pend[pi].key) {
        assert At(AtPending) by {
          Lex.Irreflexive(pend[pi].key);
        }
        PendingStep(cs, ps);
        assert ps[1..] == pend[pi+1..];
        pi := pi + 1;
      } else {
        assert At(AtCursor);
        CursorStep(cs, ps);
        VisibleStep(rest, prefix);
        TailSorted(rest);
        rest := rest[1..];
      }
      assert Merged() == old(Left())[1..];
      Settle();
    }

    method Close()
      requires Ok()
      modifies this
      ensures Ok() && closed && Left() == []
    {
      closed := true;
    }
  }

  lemma TailSorted(cs: seq<Entry>)
    requires Sorted(cs) && cs != []
    ensures Sorted(cs[1..])
  {
  }

  // ----- The transaction -----

  datatype Err = Fine | ReadOnly | EmptyKey | Failed

  function Buffered(pending: Option<Buffer>): Buffer
  {
    if pending.None? then map[] else pending.value
  }

  class Txn {
    const bucket: Data
    /** None in a read-only transaction. */
    var pending: Option<Buffer>
    var closed: bool

    constructor (bucket: Data, writable: bool)
      ensures this.bucket == bucket && !closed && pending == if writable then Some(map[]) else None
    {
      this.bucket := bucket;
      pending := if writable then Some(map[]) else None;
      closed := false;
    }

    /** The data as the transaction sees it. */
    ghost function Seen(): Data
      reads this
    {
      Overlay(bucket, Buffered(pending))
    }

    method Get(key: Bytes) returns (v: Option<Bytes>)
      ensures v == if key in Seen() then Some(Seen()[key]) else None
    {
      if pending.Some? && key in pending.value {
        return pending.value[key];
      }
      return if key in bucket then Some(bucket[key]) else None;
    }

    method Set(key: Bytes, val: Bytes) returns (err: Err)
      modifies this
      ensures err == if old(pending.None? || closed) then ReadOnly else if key == [] then EmptyKey else Fine
      ensures Seen() == if err == Fine then old(Seen())[key := val] else old(Seen())
      ensures closed == old(closed) && (pending.None? <==> old(pending).None?)
    {
      if pending.None? || closed {
        return ReadOnly;
      }
      if key == [] {
        return EmptyKey;
      }
      OverlaySet(bucket, pending.value, key, Some(val));
      pending := Some(pending.value[key := Some(val)]);
      err := Fine;
    }

    method Delete(key: Bytes) returns (err: Err)
      modifies this
      ensures err == if old(pending.None? || closed) then ReadOnly else Fine
      ensures Seen() == if err == Fine then old(Seen()) - {key} else old(Seen())
      ensures closed == old(closed) && (pending.None? <==> old(pending).None?)
    {
      if pending.None? || closed {
        return ReadOnly;
      }
      OverlaySet(bucket, pending.value, key, None);
      pending := Some(pending.value[key := None]);
      err := Fine;
    }

    /**
     * An iterator over what the transaction sees now: its entries do not
     * depend on the transaction, so later writes stay invisible.
     */
    method ScanFrom(prefix: Bytes, start: Bytes) returns (it: MergeCursor)
      ensures fresh(it) && it.Ok() && Lists(Seen(), prefix, start, it.Left())
    {
      hide Merge, Visible, Lex.Less, Sorted, SortedPending, Overlay, InRange, SortedKeys;
      var from := if Lex.Less(start, prefix) then prefix else start;
      SameRange(prefix, start, from);
      var pend := PendingFrom(Buffered(pending), prefix, from);
      var rest := Seek(bucket, from);
      SeekVisible(bucket, prefix, from, rest);
      GivenLists(bucket, [], from, rest);
      it := new MergeCursor(prefix, rest, pend);
      MergeIsOverlay(bucket, Buffered(pending), prefix, from, Visible(rest, prefix), pend);
      SameLists(Seen(), prefix, start, from, it.Left());
    }

    method Scan(prefix: Bytes) returns (it: MergeCursor)
      ensures fresh(it) && it.Ok() && Lists(Seen(), prefix, prefix, it.Left())
    {
      it := ScanFrom(prefix, prefix);
    }
  }

  /** Starting before the prefix is starting at it. */
  lemma SameRange(prefix: Bytes, start: Bytes, from: Bytes)
    requires from == if Lex.Less(start, prefix) then prefix else start
    ensures forall k :: InRange(prefix, start, k) <==> InRange(prefix, from, k)
    ensures Lex.Leq(prefix, from)
  {
    Lex.Trichotomy(prefix, from);
    if Lex.Less(start, prefix) {
      forall k | prefix <= k ensures Lex.Leq(start, k) && Lex.Leq(prefix, k) {
        Lex.PrefixFirst(prefix, k[|prefix|..]);
        assert prefix + k[|prefix|..] == k;
        if k != prefix {
          Lex.Transitive(start, prefix, k);
        }
      }
    }
  }

  lemma SameLists(m: Data, prefix: Bytes, start: Bytes, from: Bytes, es: seq<Entry>)
    requires Lists(m, prefix, from, es) && forall k :: InRange(prefix, start, k) <==> InRange(prefix, from, k)
    ensures Lists(m, prefix, start, es)
  {
    hide Sorted, InRange;
  }

  lemma GivenLists(m: Data, prefix: Bytes, start: Bytes, es: seq<Entry>)
    requires Lists(m, prefix, start, es)
    ensures Sorted(es)
  {
  }

  /** The buffered writes in range, in key order. */
  method PendingFrom(b: Buffer, prefix: Bytes, from: Bytes) returns (pend: seq<Pending>)
    ensures SortedPending(pend)
    ensures forall p: Pending :: p in pend <==> p.key in b && b[p.key] == p.val && InRange(prefix, from, p.key)
  {
    var ks := KeyScan.ScanFrom(b.Keys, prefix, from);
    assert forall k :: k in ks ==> k in b;
    pend := seq(|ks|, i requires 0 <= i < |ks| => Pending(ks[i], b[ks[i]]));
    forall p: Pending | p.key in b && b[p.key] == p.val && InRange(prefix, from, p.key) ensures p in pend {
      var i :| 0 <= i < |ks| && ks[i] == p.key;
      assert pend[i] == p;
    }
  }

  /** The cursor's entries from a key on. */
  method Seek(m: Data, from: Bytes) returns (es: seq<Entry>)
    ensures Lists(m, [], from, es)
  {
    var ks := KeyScan.ScanFrom(m.Keys, [], from);
    assert forall k :: k in ks ==> k in m;
    es := seq(|ks|, i requires 0 <= i < |ks| => Entry(ks[i], m[ks[i]]));
    forall k, v | k in m && m[k] == v && InRange([], from, k) ensures Entry(k, v) in es {
      var i :| 0 <= i < |ks| && ks[i] == k;
      assert es[i] == Entry(k, v);
    }
  }

  /** Stopping at the first key outside the prefix misses none inside it. */
  lemma SeekVisible(m: Data, prefix: Bytes, from: Bytes, es: seq<Entry>)
    requires Lists(m, [], from, es) && Lex.Leq(prefix, from)
    ensures Lists(m, prefix, from, Visible(es, prefix))
  {
    hide Visible, Lex.Less;
    forall c | c in es ensures Lex.Leq(prefix, c.key) {
      assert c == Entry(c.key, c.val);
      if prefix != from && from != c.key {
        Lex.Transitive(prefix, from, c.key);
      }
    }
    forall k, v ensures Entry(k, v) in Visible(es, prefix) <==> k in m && m[k] == v && InRange(prefix, from, k) {
      VisibleExact(es, prefix, Entry(k, v));
    }
    VisibleExact(es, prefix, Entry([], []));
  }

  // ----- The store -----

  datatype Write = Put(key: Bytes, val: Bytes) | Del(key: Bytes)

  predicate Allowed(ws: seq<Write>)
  {
    forall i :: 0 <= i < |ws| ==> (ws[i].Put? ==> ws[i].key != [])
  }

  function Effect(m: Data, w: Write): Data
  {
    match w
    case Put(k, v) => m[k := v]
    case Del(k) => m - {k}
  }

  /** The writes run one after another on the data itself. */
  function Play(m: Data, ws: seq<Write>): Data
  {
    if ws == [] then m else Effect(Play(m, ws[..|ws|-1]), ws[|ws|-1])
  }

  /** What the function of an update does: the writes it makes in order, and whether it then returns an error. */
  datatype Outcome = Outcome(writes: seq<Write>, fails: bool)

  class Store {
    var data: Data

    /** Applies the buffer key by key. */
    method Commit(t: Txn)
      requires t.bucket == data && t.pending.Some?
      modifies this
      ensures data == Overlay(old(data), t.pending.value)
    {
      hide Overlay, Part, SortedKeys;
      var b := t.pending.value;
      var keys := KeyScan.ScanFrom(b.Keys, [], []);
      ghost var was := data;
      AllInRange();
      assert forall k :: k in keys <==> k in b;
      PartEnds(was, b, keys);
      for i := 0 to |keys|
        invariant data == Overlay(was, Part(b, keys[..i]))
      {
        var k := keys[i];
        PartMore(b, keys, i);
        OverlaySet(was, Part(b, keys[..i]), k, b[k]);
        if b[k].None? {
          data := data - {k};
        } else {
          data := data[k := b[k].value];
        }
      }
      assert keys[..|keys|] == keys;
    }

    /**
     * Runs fn in a transaction and commits its writes if neither it nor one
     * of them fails; a failure leaves the data as it was. What fn writes,
     * and whether it fails after that, depends on the data it finds.
     */
    method Update(fn: Data -> Outcome) returns (err: Err)
      modifies this
      ensures var o := fn(old(data));
              && err == (if !Allowed(o.writes) then EmptyKey else if o.fails then Failed else Fine)
              && data == if err == Fine then Play(old(data), o.writes) else old(data)
    {
      hide Overlay;
      var t := new Txn(data, true);
      var Outcome(ws, fails) := fn(data);
      NothingBufferedYet(data);
      for i := 0 to |ws|
        invariant fresh(t) && data == old(data) && t.bucket == data && !t.closed && t.pending.Some?
        invariant Allowed(ws[..i]) && t.Seen() == Play(data, ws[..i])
      {
        assert ws[..i+1] == ws[..i] + [ws[i]];
        match ws[i] {
          case Put(k, v) => err := t.Set(k, v);
          case Del(k) => err := t.Delete(k);
        }
        if err != Fine {
          return;
        }
      }
      assert ws[..|ws|] == ws;
      if fails {
        return Failed;
      }
      t.closed := true;
      Commit(t);
      err := Fine;
    }
  }

  /** The part of the buffer under the given keys. */
  ghost function Part(b: Buffer, keys: seq<Bytes>): Buffer
  {
    map k | k in b && k in keys :: b[k]
  }

  /** Buffering one more write writes it. */
  lemma OverlaySet(m: Data, b: Buffer, k: Bytes, v: Option<Bytes>)
    ensures Overlay(m, b[k := v]) == if v.None? then Overlay(m, b) - {k} else Overlay(m, b)[k := v.value]
  {
    var was, now := Overlay(m, b), Overlay(m, b[k := v]);
    assert forall x :: x in now <==> if x == k then v.Some? else x in was;
    assert forall x :: x in now && x != k ==> now[x] == was[x];
  }

  lemma PartMore(b: Buffer, keys: seq<Bytes>, i: nat)
    requires i < |keys| && keys[i] in b
    ensures Part(b, keys[..i+1]) == Part(b, keys[..i])[keys[i] := b[keys[i]]]
  {
    assert forall k :: k in keys[..i+1] <==> k in keys[..i] || k == keys[i];
  }

  lemma PartEnds(m: Data, b: Buffer, keys: seq<Bytes>)
    requires forall k :: k in keys <==> k in b
    ensures Part(b, keys) == b && Overlay(m, Part(b, [])) == m
  {
  }

  lemma AllInRange()
    ensures forall k :: InRange([], [], k)
  {
  }

  lemma NothingBufferedYet(m: Data)
    ensures Overlay(m, map[]) == m
  {
  }
}
