/**
 * Buffered writes over a committed bucket: reads and iterators see the
 * bucket overlaid with the buffer, and committing produces that overlay.
 */
module BoltOverlay {
  import opened Seqs
  import opened Values
  import opened KeyScan
  import Lex

  datatype Entry = Entry(key: Bytes, val: Bytes)

  /** A buffered write; None marks a deletion. */
  datatype Pending = Pending(key: Bytes, val: Option<Bytes>)

  type Data = map<Bytes, Bytes>
  type Buffer = map<Bytes, Option<Bytes>>

  /** The committed data with the buffered writes applied. */
  ghost function Overlay(m: Data, b: Buffer): Data
  {
    map k | k in m.Keys + b.Keys && (k in b ==> b[k].Some?) :: if k in b then b[k].value else m[k]
  }

  /** es are, in key order, the entries of m under the prefix from start on. */
  ghost predicate Lists(m: Data, prefix: Bytes, start: Bytes, es: seq<Entry>)
  {
    && Sorted(es)
    && forall k, v :: Entry(k, v) in es <==> k in m && m[k] == v && InRange(prefix, start, k)
  }

  ghost predicate Sorted(es: seq<Entry>)
  {
    forall i, j :: 0 <= i < j < |es| ==> Lex.Less(es[i].key, es[j].key)
  }

  ghost predicate SortedPending(ps: seq<Pending>)
  {
    forall i, j :: 0 <= i < j < |ps| ==> Lex.Less(ps[i].key, ps[j].key)
  }

  // ----- Merging -----

  /** What the two sources show together: a buffered write wins over a committed entry. */
  ghost function Merge(cs: seq<Entry>, ps: seq<Pending>): seq<Entry>
    decreases |cs| + |ps|
  {
    if ps == [] then cs
    else if cs != [] && Lex.Less(cs[0].key, ps[0].key) then [cs[0]] + Merge(cs[1..], ps)
    else
      var rest := if cs != [] && cs[0].key == ps[0].key then cs[1..] else cs;
      (if ps[0].val.Some? then [Entry(ps[0].key, ps[0].val.value)] else []) + Merge(rest, ps[1..])
  }

  ghost predicate Shows(cs: seq<Entry>, ps: seq<Pending>, e: Entry)
  {
    Pending(e.key, Some(e.val)) in ps || (e in cs && forall p :: p in ps ==> p.key != e.key)
  }

  lemma HeadFirst(cs: seq<Entry>, e: Entry)
    requires Sorted(cs) && cs != [] && e in cs
    ensures e == cs[0] || (Lex.Less(cs[0].key, e.key) && e in cs[1..])
  {
    var i :| 0 <= i < |cs| && cs[i] == e;
    if i > 0 {
      assert e == cs[1..][i-1];
    }
  }

  lemma PendingHeadFirst(ps: seq<Pending>, p: Pending)
    requires SortedPending(ps) && ps != [] && p in ps
    ensures p == ps[0] || (Lex.Less(ps[0].key, p.key) && p in ps[1..])
  {
    var i :| 0 <= i < |ps| && ps[i] == p;
    if i > 0 {
      assert p == ps[1..][i-1];
    }
  }

  /** A key before every buffered one is shown as committed. */
  lemma CommittedHead(cs: seq<Entry>, ps: seq<Pending>, e: Entry)
    requires Sorted(cs) && SortedPending(ps) && cs != [] && ps != [] && Lex.Less(cs[0].key, ps[0].key)
    ensures Shows(cs, ps, e) <==> e == cs[0] || Shows(cs[1..], ps, e)
  {
    assert cs == [cs[0]] + cs[1..];
    forall p | p in ps ensures p.key != cs[0].key {
      PendingHeadFirst(ps, p);
      Lex.Irreflexive(cs[0].key);
      if p.key == cs[0].key {
        Lex.Transitive(cs[0].key, ps[0].key, p.key);
      }
    }
  }

  /** The first buffered write decides its key, the rest decide the others. */
  lemma PendingHead(cs: seq<Entry>, ps: seq<Pending>, e: Entry)
    requires Sorted(cs) && SortedPending(ps) && ps != []
    requires cs == [] || !Lex.Less(cs[0].key, ps[0].key)
    ensures var rest := if cs != [] && cs[0].key == ps[0].key then cs[1..] else cs;
            Shows(cs, ps, e) <==> Pending(e.key, Some(e.val)) == ps[0] || Shows(rest, ps[1..], e)
  {
    var rest := if cs != [] && cs[0].key == ps[0].key then cs[1..] else cs;
    assert ps == [ps[0]] + ps[1..];
    Lex.Irreflexive(ps[0].key);
    forall p | p in ps[1..] ensures p.key != ps[0].key {
      assert p in ps;
      var i :| 0 <= i < |ps| - 1 && ps[1..][i] == p;
      assert ps[i+1] == p;
    }
    if cs != [] {
      assert cs == [cs[0]] + cs[1..];
      forall c | c in rest ensures c.key != ps[0].key {
        AfterKey(cs, ps[0].key, c);
      }
    }
  }

  lemma AfterKey(cs: seq<Entry>, key: Bytes, c: Entry)
    requires Sorted(cs) && cs != [] && !Lex.Less(cs[0].key, key)
    requires c in if cs[0].key == key then cs[1..] else cs
    ensures Lex.Less(key, c.key)
  {
    Lex.Trichotomy(cs[0].key, key);
    if cs[0].key == key {
      var i :| 0 <= i < |cs| - 1 && cs[1..][i] == c;
      assert cs[i+1] == c;
    } else {
      HeadFirst(cs, c);
      if c != cs[0] {
        Lex.Transitive(key, cs[0].key, c.key);
      }
    }
  }

  lemma {:induction false} MergeShows(cs: seq<Entry>, ps: seq<Pending>, e: Entry)
    requires Sorted(cs) && SortedPending(ps)
    ensures e in Merge(cs, ps) <==> Shows(cs, ps, e)
    decreases |cs| + |ps|
  {
    hide Lex.Less, Shows;
    if ps == [] {
      NothingBuffered(cs, e);
    } else if cs != [] && Lex.Less(cs[0].key, ps[0].key) {
      CommittedHead(cs, ps, e);
      MergeShows(cs[1..], ps, e);
    } else {
      PendingHead(cs, ps, e);
      MergeShows(if cs != [] && cs[0].key == ps[0].key then cs[1..] else cs, ps[1..], e);
    }
  }

  lemma NothingBuffered(cs: seq<Entry>, e: Entry)
    ensures Shows(cs, [], e) <==> e in cs
  {
  }

  /** Every merged key is after a key that is before both sources. */
  lemma {:induction false} MergeSorted(cs: seq<Entry>, ps: seq<Pending>)
    requires Sorted(cs) && SortedPending(ps)
    ensures Sorted(Merge(cs, ps))
    decreases |cs| + |ps|
  {
    hide Lex.Less;
    if ps != [] {
      if cs != [] && Lex.Less(cs[0].key, ps[0].key) {
        MergeSorted(cs[1..], ps);
        forall e | e in Merge(cs[1..], ps) ensures Lex.Less(cs[0].key, e.key) {
          MergeShows(cs[1..], ps, e);
          ShownAfter(cs, ps, e);
        }
      } else {
        var rest := if cs != [] && cs[0].key == ps[0].key then cs[1..] else cs;
        MergeSorted(rest, ps[1..]);
        forall e | e in Merge(rest, ps[1..]) ensures Lex.Less(ps[0].key, e.key) {
          MergeShows(rest, ps[1..], e);
          ShownAfterPending(cs, ps, rest, e);
        }
      }
    }
  }

  lemma ShownAfter(cs: seq<Entry>, ps: seq<Pending>, e: Entry)
    requires Sorted(cs) && SortedPending(ps) && cs != [] && ps != [] && Lex.Less(cs[0].key, ps[0].key)
    requires Shows(cs[1..], ps, e)
    ensures Lex.Less(cs[0].key, e.key)
  {
    hide Lex.Less;
    if e in cs[1..] {
      var i :| 0 <= i < |cs| - 1 && cs[1..][i] == e;
      assert cs[i+1] == e;
    } else {
      PendingHeadFirst(ps, Pending(e.key, Some(e.val)));
      if e.key != ps[0].key {
        Lex.Transitive(cs[0].key, ps[0].key, e.key);
      }
    }
  }

  lemma ShownAfterPending(cs: seq<Entry>, ps: seq<Pending>, rest: seq<Entry>, e: Entry)
    requires Sorted(cs) && SortedPending(ps) && ps != [] && (cs == [] || !Lex.Less(cs[0].key, ps[0].key))
    requires rest == (if cs != [] && cs[0].key == ps[0].key then cs[1..] else cs) && Shows(rest, ps[1..], e)
    ensures Lex.Less(ps[0].key, e.key)
  {
    hide Lex.Less;
    if e in rest {
      AfterKey(cs, ps[0].key, e);
    } else {
      var i :| 0 <= i < |ps| - 1 && ps[1..][i] == Pending(e.key, Some(e.val));
      assert ps[i+1].key == e.key;
    }
  }

  // ----- The two sources of an iterator -----

  /** The committed entries from the cursor on that are under the prefix. */
  ghost function Visible(cs: seq<Entry>, prefix: Bytes): seq<Entry>
  {
    if cs == [] || !(prefix <= cs[0].key) then [] else [cs[0]] + Visible(cs[1..], prefix)
  }

  /** Between a prefix and one of its extensions there are only extensions. */
  lemma {:induction false} Between(p: Bytes, a: Bytes, b: Bytes)
    requires Lex.Leq(p, a) && Lex.Leq(a, b) && p <= b
    ensures p <= a
  {
    if p != [] && a != b {
      assert a != [] ==> p[0] <= a[0] <= b[0] == p[0];
      assert a != [];
      Between(p[1..], a[1..], b[1..]);
      assert p == [p[0]] + p[1..] && a == [a[0]] + a[1..];
    }
  }

  lemma {:induction false} VisibleExact(cs: seq<Entry>, prefix: Bytes, e: Entry)
    requires Sorted(cs) && forall c :: c in cs ==> Lex.Leq(prefix, c.key)
    ensures e in Visible(cs, prefix) <==> e in cs && prefix <= e.key
    ensures Sorted(Visible(cs, prefix))
  {
    if cs != [] {
      assert cs == [cs[0]] + cs[1..];
      if prefix <= cs[0].key {
        VisibleExact(cs[1..], prefix, e);
        forall d | d in Visible(cs[1..], prefix) ensures Lex.Less(cs[0].key, d.key) {
          VisibleExact(cs[1..], prefix, d);
          HeadFirst(cs, d);
          var i :| 0 <= i < |cs| - 1 && cs[1..][i] == d;
          assert cs[i+1] == d;
        }
      } else if e in cs && prefix <= e.key {
        HeadFirst(cs, e);
        Between(prefix, cs[0].key, e.key);
      }
    }
  }

  /** Sources that hold what is in range show exactly the overlay in range. */
  lemma MergeIsOverlay(m: Data, b: Buffer, prefix: Bytes, start: Bytes, cs: seq<Entry>, ps: seq<Pending>)
    requires Lists(m, prefix, start, cs) && SortedPending(ps)
    requires forall p: Pending :: p in ps <==> p.key in b && b[p.key] == p.val && InRange(prefix, start, p.key)
    ensures Lists(Overlay(m, b), prefix, start, Merge(cs, ps))
  {
    hide Lex.Less, InRange, Merge;
    MergeSorted(cs, ps);
    forall k, v ensures Entry(k, v) in Merge(cs, ps) <==>
                        k in Overlay(m, b) && Overlay(m, b)[k] == v && InRange(prefix, start, k) {
      MergeShows(cs, ps, Entry(k, v));
      if k in b {
        assert Pending(k, b[k]) in ps <==> InRange(prefix, start, k);
      }
    }
  }
}
