/**
 * Recording a statement's writes, shipping them as bytes and replaying them:
 * every replica that replays them on the same data ends with the same data.
 */
module WriteSet {
  import opened Seqs
  import opened Values
  import opened Varint
  import opened BoltOverlay
  import opened BoltTxn
  import opened RecordReader

  const OP_SET: byte := 1
  const OP_DEL: byte := 2

  // ----- Encoding -----

  function Framed(s: Bytes): Bytes
  {
    AppendUvarint(|s|) + s
  }

  function EncodeWrite(w: Write): Bytes
  {
    match w
    case Put(k, v) => [OP_SET] + (Framed(k) + Framed(v))
    case Del(k) => [OP_DEL] + Framed(k)
  }

  function EncodeWrites(ws: seq<Write>): Bytes
  {
    if ws == [] then [] else EncodeWrite(ws[0]) + EncodeWrites(ws[1..])
  }

  function EncodeWriteSet(ws: seq<Write>): Bytes
  {
    AppendUvarint(|ws|) + EncodeWrites(ws)
  }

  // ----- Replaying -----

  function ParseFramed(b: Bytes): (r: Parsed<Bytes>)
    ensures r.Parsed? ==> |r.rest| < |b|
  {
    match ParseUvarint(b)
    case Malformed => Malformed
    case Parsed(n, rest) => if n > |rest| then Malformed else Parsed(rest[..n], rest[n..])
  }

  function ParseWrite(b: Bytes): (r: Parsed<Write>)
    ensures r.Parsed? ==> |r.rest| < |b|
  {
    if b == [] then Malformed
    else
      match ParseFramed(b[1..])
      case Malformed => Malformed
      case Parsed(k, rest) =>
        if b[0] == OP_SET then
          match ParseFramed(rest) {
            case Malformed => Malformed
            case Parsed(v, rest') => Parsed(Put(k, v), rest')
          }
        else if b[0] == OP_DEL then Parsed(Del(k), rest)
        else Malformed
  }

  /** One write; a put under the empty key is refused. */
  function Step(m: Data, w: Write): Option<Data>
  {
    if w.Put? && w.key == [] then None else Some(Effect(m, w))
  }

  function ReplayOps(n: nat, b: Bytes, m: Data): Option<Data>
    decreases n
  {
    if n == 0 then Some(m)
    else
      match ParseWrite(b)
      case Malformed => None
      case Parsed(w, rest) =>
        match Step(m, w)
        case None => None
        case Some(m') => ReplayOps(n - 1, rest, m')
  }

  /** The data after replaying the bytes, or None if they are refused. */
  function Replayed(b: Bytes, m: Data): Option<Data>
  {
    match ParseUvarint(b)
    case Malformed => None
    case Parsed(n, rest) => ReplayOps(n, rest, m)
  }

  // ----- Round trip -----

  predicate SizedWrites(ws: seq<Write>)
  {
    |ws| < TWO_63 &&
    forall i :: 0 <= i < |ws| ==> |ws[i].key| < TWO_63 && (ws[i].Put? ==> |ws[i].val| < TWO_63)
  }

  lemma FramedRoundTrip(s: Bytes, t: Bytes)
    requires |s| < TWO_64
    ensures ParseFramed(Framed(s) + t) == Parsed(s, t)
  {
    assert Framed(s) + t == AppendUvarint(|s|) + (s + t);
    UvarintRoundTrip(|s|, s + t);
    assert (s + t)[..|s|] == s && (s + t)[|s|..] == t;
  }

  lemma PutRoundTrip(k: Bytes, v: Bytes, t: Bytes)
    requires |k| < TWO_63 && |v| < TWO_63
    ensures ParseWrite(EncodeWrite(Put(k, v)) + t) == Parsed(Put(k, v), t)
  {
    hide Framed, ParseFramed;
    var rest := Framed(v) + t;
    assert EncodeWrite(Put(k, v)) + t == [OP_SET] + (Framed(k) + rest);
    assert ([OP_SET] + (Framed(k) + rest))[1..] == Framed(k) + rest;
    FramedRoundTrip(k, rest);
    FramedRoundTrip(v, t);
  }

  lemma DelRoundTrip(k: Bytes, t: Bytes)
    requires |k| < TWO_63
    ensures ParseWrite(EncodeWrite(Del(k)) + t) == Parsed(Del(k), t)
  {
    hide Framed, ParseFramed;
    assert EncodeWrite(Del(k)) + t == [OP_DEL] + (Framed(k) + t);
    assert ([OP_DEL] + (Framed(k) + t))[1..] == Framed(k) + t;
    FramedRoundTrip(k, t);
  }

  lemma WriteRoundTrip(w: Write, t: Bytes)
    requires |w.key| < TWO_63 && (w.Put? ==> |w.val| < TWO_63)
    ensures ParseWrite(EncodeWrite(w) + t) == Parsed(w, t)
  {
    hide EncodeWrite, ParseWrite;
    match w
    case Put(k, v) => PutRoundTrip(k, v, t);
    case Del(k) => DelRoundTrip(k, t);
  }

  lemma {:induction false} ReplayOpsExact(ws: seq<Write>, t: Bytes, m: Data)
    requires SizedWrites(ws)
    ensures ReplayOps(|ws|, EncodeWrites(ws) + t, m) == if Allowed(ws) then Some(PlayFrom(m, ws)) else None
    decreases |ws|
  {
    hide ParseWrite, EncodeWrite;
    if ws != [] {
      var w := ws[0];
      var tail := EncodeWrites(ws[1..]);
      assert (EncodeWrite(w) + tail) + t == EncodeWrite(w) + (tail + t);
      WriteRoundTrip(w, tail + t);
      assert forall i :: 0 <= i < |ws| - 1 ==> ws[1..][i] == ws[i+1];
      assert Allowed(ws) <==> (w.Put? ==> w.key != []) && Allowed(ws[1..]) by {
        AllowedHead(ws);
      }
      if Step(m, w).Some? {
        ReplayOpsExact(ws[1..], t, Step(m, w).value);
      }
    }
  }

  lemma AllowedHead(ws: seq<Write>)
    requires ws != []
    ensures Allowed(ws) <==> (ws[0].Put? ==> ws[0].key != []) && Allowed(ws[1..])
  {
    assert forall i :: 0 <= i < |ws| - 1 ==> ws[1..][i] == ws[i+1];
    if Allowed(ws[1..]) && (ws[0].Put? ==> ws[0].key != []) {
      forall i | 0 <= i < |ws| ensures ws[i].Put? ==> ws[i].key != [] {
        if i > 0 {
          assert ws[i] == ws[1..][i-1];
        }
      }
    }
  }

  /** Writes played first to last. */
  function PlayFrom(m: Data, ws: seq<Write>): Data
    decreases |ws|
  {
    if ws == [] then m
    else PlayFrom(Effect(m, ws[0]), ws[1..])
  }

  lemma {:induction false} PlayEither(m: Data, ws: seq<Write>)
    ensures PlayFrom(m, ws) == Play(m, ws)
    decreases |ws|
  {
    if |ws| >= 1 {
      var last, front := ws[|ws|-1], ws[..|ws|-1];
      PlayFromAppend(m, front, last);
      assert front + [last] == ws;
      PlayEither(m, front);
    }
  }

  lemma {:induction false} PlayFromAppend(m: Data, ws: seq<Write>, w: Write)
    ensures PlayFrom(m, ws + [w]) == Effect(PlayFrom(m, ws), w)
    decreases |ws|
  {
    if ws == [] {
      assert ws + [w] == [w];
      assert [w][1..] == [];
    } else {
      assert (ws + [w])[1..] == ws[1..] + [w];
      PlayFromAppend(Effect(m, ws[0]), ws[1..], w);
    }
  }

  /** Replaying the encoded writes does what the writes do, and is refused exactly when one of them is. */
  lemma ReplayEncoded(ws: seq<Write>, m: Data)
    requires SizedWrites(ws)
    ensures Replayed(EncodeWriteSet(ws), m) == if Allowed(ws) then Some(Play(m, ws)) else None
  {
    hide EncodeWrites, ReplayOps, Play, PlayFrom, Allowed;
    UvarintRoundTrip(|ws|, EncodeWrites(ws));
    assert EncodeWrites(ws) + [] == EncodeWrites(ws);
    ReplayOpsExact(ws, [], m);
    PlayEither(m, ws);
  }

  // ----- The recording transaction -----

  class RecordTxn {
    const inner: Txn
    var ops: seq<Write>

    constructor (inner: Txn)
      requires inner.Seen() == inner.bucket
      ensures this.inner == inner && ops == [] && Faithful()
    {
      this.inner := inner;
      ops := [];
    }

    /** The transaction shows what the recorded writes make of the data it started from. */
    ghost predicate Faithful()
      reads this, inner
    {
      Allowed(ops) && inner.Seen() == Play(inner.bucket, ops)
    }

    /** Records the write and makes it; a refused write is recorded too, but the statement has failed. */
    method Set(key: Bytes, val: Bytes) returns (err: Err)
      requires Faithful()
      modifies this, inner
      ensures ops == old(ops) + [Put(key, val)]
      ensures err == Fine ==> Faithful() && inner.Seen() == old(inner.Seen())[key := val]
      ensures err != Fine ==> inner.Seen() == old(inner.Seen())
    {
      hide Overlay;
      ops := ops + [Put(key, val)];
      PlayAppend(inner.bucket, old(ops), Put(key, val));
      err := inner.Set(key, val);
    }

    method Delete(key: Bytes) returns (err: Err)
      requires Faithful()
      modifies this, inner
      ensures ops == old(ops) + [Del(key)]
      ensures err == Fine ==> Faithful() && inner.Seen() == old(inner.Seen()) - {key}
      ensures err != Fine ==> inner.Seen() == old(inner.Seen())
    {
      hide Overlay;
      ops := ops + [Del(key)];
      PlayAppend(inner.bucket, old(ops), Del(key));
      err := inner.Delete(key);
    }

    method Get(key: Bytes) returns (v: Option<Bytes>)
      ensures v == if key in inner.Seen() then Some(inner.Seen()[key]) else None
    {
      v := inner.Get(key);
    }

    function Encode(): Bytes
      reads this
    {
      EncodeWriteSet(ops)
    }
  }

  lemma PlayAppend(m: Data, ws: seq<Write>, w: Write)
    ensures Play(m, ws + [w]) == Effect(Play(m, ws), w)
    ensures Allowed(ws + [w]) <==> Allowed(ws) && (w.Put? ==> w.key != [])
  {
    var all := ws + [w];
    assert all[..|all|-1] == ws;
    assert forall i :: 0 <= i < |ws| ==> all[i] == ws[i];
    assert all[|ws|] == w;
  }

  /** The statement's effect on the leader is the write-set's effect on any replica with the same data. */
  lemma ReplicaFollows(ops: seq<Write>, bucket: Data, seen: Data)
    requires SizedWrites(ops) && Allowed(ops) && seen == Play(bucket, ops)
    ensures Replayed(EncodeWriteSet(ops), bucket) == Some(seen)
  {
    ReplayEncoded(ops, bucket);
  }

  // ----- The state machine -----

  /** Decodes and applies a write-set in order; on an error the transaction is to be dropped. */
  method ApplyWriteSet(data: Bytes, t: Txn) returns (ok: bool)
    requires t.pending.Some? && !t.closed
    modifies t
    ensures t.pending.Some? && !t.closed
    ensures ok <==> Replayed(data, old(t.Seen())).Some?
    ensures ok ==> t.Seen() == Replayed(data, old(t.Seen())).value
  {
    hide ParseUvarint, ParseWrite, Step, Overlay;
    var r := new Reader(data);
    var count := r.Uvarint();
    if count.None? {
      return false;
    }
    ghost var start, was := r.Left(), t.Seen();
    for i := 0 to count.value
      invariant r.Valid() && fresh(r) && t.pending.Some? && !t.closed
      invariant ReplayOps(count.value, start, was) == ReplayOps(count.value - i, r.Left(), t.Seen())
    {
      var done := ApplyOp(r, t);
      if !done {
        return false;
      }
    }
    ok := true;
  }

  /** Reads one write and makes it. */
  method ApplyOp(r: Reader, t: Txn) returns (ok: bool)
    requires r.Valid() && t.pending.Some? && !t.closed
    modifies r, t
    ensures r.Valid() && t.pending.Some? && !t.closed
    ensures var p := ParseWrite(old(r.Left()));
            ok <==> p.Parsed? && Step(old(t.Seen()), p.value).Some?
    ensures ok ==> var p := ParseWrite(old(r.Left()));
                   r.Left() == p.rest && t.Seen() == Step(old(t.Seen()), p.value).value
  {
    hide ParseUvarint, ParseFramed, Overlay;
    var kind := r.Byte();
    if kind.None? {
      return false;
    }
    var key := ReadBytes(r);
    if key.None? {
      return false;
    }
    if kind.value == OP_SET {
      var val := ReadBytes(r);
      if val.None? {
        return false;
      }
      var err := t.Set(key.value, val.value);
      return err == Fine;
    }
    if kind.value == OP_DEL {
      var err := t.Delete(key.value);
      return true;
    }
    return false;
  }

  method ReadBytes(r: Reader) returns (s: Option<Bytes>)
    requires r.Valid()
    modifies r
    ensures r.Read(ParseFramed(old(r.Left())), s)
  {
    hide ParseUvarint;
    var n := r.Uvarint();
    if n.None? {
      return None;
    }
    s := r.Bytes(n.value);
  }

  /** One committed log entry: its effect is atomic. */
  method ApplyEntry(store: Store, data: Bytes)
    modifies store
    ensures store.data == AfterEntry(old(store.data), data)
  {
    hide Overlay, Replayed;
    var t := new Txn(store.data, true);
    NothingBufferedYet(store.data);
    var ok := ApplyWriteSet(data, t);
    if ok {
      t.closed := true;
      store.Commit(t);
    }
  }

  function AfterEntry(m: Data, data: Bytes): Data
  {
    match Replayed(data, m)
    case Some(m') => m'
    case None => m
  }
}
