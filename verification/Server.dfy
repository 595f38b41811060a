/** The server on the heap: one store, the live connections, and the event dispatch. Each event
    handled is one or more steps of the event-loop machine. */
module Server {
  import opened Bytes
  import opened Connection
  import opened Departures
  import opened Environment
  import opened EventLoop
  import opened HashTable
  import opened Limits
  import opened Runs
  import opened Stream
  import ByteBuffer
  import Hash
  import T = Table

  // ---- Ownership ----------------------------------------------------------

  /** Two queues share no storage. */
  ghost predicate BufsApart(a: ByteBuffer.ByteBuf, b: ByteBuffer.ByteBuf)
    reads a, b
  {
    a != b && (a.data == null || a.data != b.data)
  }

  /** Two connections share no identity and no object. */
  ghost predicate Strangers(c: Conn, d: Conn)
    reads c.inBuf, c.outBuf, d.inBuf, d.outBuf
    ensures Strangers(c, d) ==>
              && c != d && c.id != d.id
              && c.inBuf != d.inBuf && c.inBuf != d.outBuf && c.outBuf != d.inBuf && c.outBuf != d.outBuf
  {
    && c != d && c.id != d.id
    && BufsApart(c.inBuf, d.inBuf) && BufsApart(c.inBuf, d.outBuf)
    && BufsApart(c.outBuf, d.inBuf) && BufsApart(c.outBuf, d.outBuf)
  }

  /** The objects of a connection are all in `repr`. */
  ghost predicate Owns(repr: set<object>, c: Conn)
    reads c.inBuf, c.outBuf
  {
    && c in repr && c.inBuf in repr && c.outBuf in repr
    && (c.inBuf.data != null ==> c.inBuf.data in repr)
    && (c.outBuf.data != null ==> c.outBuf.data in repr)
  }

  /** The store holds table t; the connections of `l` are owned, pairwise disjoint, apart from the
      store, and stand for exactly the connections of m. */
  ghost predicate Parts(repr: set<object>, store: HashTable, l: seq<Conn>, t: T.Chains, m: map<nat, ConnSt>)
    reads repr
    ensures Parts(repr, store, l, t, m) ==> store in repr && store.table == t && |t| == Hash.BUCKETS
  {
    && store in repr && store.Repr <= repr
    && store.Valid() && store.table == t
    && (forall c :: c in l ==> c in repr && c.inBuf in repr && c.outBuf in repr && Owns(repr, c) && Apart(c, store))
    && (forall i, j :: 0 <= i < j < |l| ==> Strangers(l[i], l[j]))
    && (forall c :: c in l ==> c.id in m && m[c.id] == c.Abs())
    && (forall id :: id in m ==> exists c :: c in l && c.id == id)
  }

  lemma StrangersSymmetric(c: Conn, d: Conn)
    requires Strangers(c, d)
    ensures Strangers(d, c)
  {
  }

  /** Every other connection is a stranger to the k-th. */
  lemma Others(l: seq<Conn>, k: nat)
    requires k < |l| && forall i, j :: 0 <= i < j < |l| ==> Strangers(l[i], l[j])
    ensures forall i :: 0 <= i < |l| && i != k ==> l[i] != l[k]
    ensures forall d :: d in l && d != l[k] ==> Strangers(l[k], d)
  {
    hide Strangers;
    forall i | 0 <= i < |l| && i != k ensures l[i] != l[k] && Strangers(l[k], l[i]) {
      if i < k {
        StrangersSymmetric(l[i], l[k]);
      }
    }
  }

  /** The storage of a stranger, apart from the store, is none of the served connection's and none
      of the store's. */
  lemma OutOfReach(c: Conn, d: Conn, store: HashTable)
    requires Strangers(c, d) && Apart(d, store)
    ensures d.inBuf.data != null ==>
              d.inBuf.data !in store.Repr && d.inBuf.data != c.inBuf.data && d.inBuf.data != c.outBuf.data
    ensures d.outBuf.data != null ==>
              d.outBuf.data !in store.Repr && d.outBuf.data != c.inBuf.data && d.outBuf.data != c.outBuf.data
  {
  }

  /** The k-th connection apart, every other one has its value in m and its place. */
  ghost predicate OthersStand(repr: set<object>, store: HashTable, l: seq<Conn>, k: nat, m: map<nat, ConnSt>)
    reads *
    requires k < |l|
  {
    && (forall d :: d in l ==> Owns(repr, d))
    && (forall d :: d in l && d != l[k] ==>
          d.id in m && Apart(d, store) && d.Abs() == m[d.id] && Strangers(l[k], d))
  }

  /** No two connections other than the k-th share anything. */
  ghost predicate OthersApart(l: seq<Conn>, k: nat)
    reads *
  {
    forall i, j :: 0 <= i < j < |l| && i != k && j != k ==> Strangers(l[i], l[j])
  }

  lemma Reassemble(repr: set<object>, store: HashTable, l: seq<Conn>, k: nat, m: map<nat, ConnSt>)
    requires k < |l| && store in repr && store.Repr <= repr && store.Valid()
    requires OthersStand(repr, store, l, k, m) && OthersApart(l, k) && Apart(l[k], store)
    requires forall i :: 0 <= i < |l| && i != k ==> l[i] != l[k]
    requires forall id :: id in m ==> exists c :: c in l && c.id == id
    ensures Parts(repr, store, l, store.table, m[l[k].id := l[k].Abs()])
  {
    hide Apart, Strangers, Conn.Abs, HashTable.Valid;
    forall i, j | 0 <= i < j < |l| ensures Strangers(l[i], l[j]) {
      if j == k {
        StrangersSymmetric(l[k], l[i]);
      }
    }
  }

  ghost function Storage(b: ByteBuffer.ByteBuf): set<object>
    reads b
  {
    if b.data == null then {} else {b.data}
  }

  /** One readable event, and what it leaves of every other connection. */
  method ServeReadAlone(store: HashTable, c: Conn, script: seq<ReadAnswer>,
                        ghost repr: set<object>, ghost l: seq<Conn>, ghost k: nat, ghost t: T.Chains,
                        ghost m: map<nat, ConnSt>)
    returns (keep: bool, ghost tr: ReadTrace)
    requires Parts(repr, store, l, t, m) && k < |l| && l[k] == c && Chunks(script)
    modifies repr
    ensures Apart(c, store) && fresh(store.Repr - old(store.Repr))
    ensures c.inBuf.data == old(c.inBuf.data) || fresh(c.inBuf.data)
    ensures c.outBuf.data == old(c.outBuf.data) || fresh(c.outBuf.data)
    ensures forall d :: d in l && d != c ==> Apart(d, store) && d.Abs() == m[d.id]
    ensures forall d :: d in l && d != c ==> d.inBuf.data == old(d.inBuf.data) && d.outBuf.data == old(d.outBuf.data)
    ensures ConnReads(c.id, m[c.id], t, tr, c.Abs(), store.table, keep)
    ensures ReadAnswered(m[c.id], script, tr, keep)
  {
    hide ReadAnswered, ByteBuffer.ByteBuf.Valid, ByteBuffer.ByteBuf.Contents, HashTable.Valid, Conn.Valid, Conn.Abs,
        ConnReads;
    Others(l, k);
    forall d | d in l && d != c { OutOfReach(c, d, store); }
    keep, tr := HandleRead(c, store, script);
    hide Strangers;
  }

  /** The same, with what the server owns brought up to date. */
  method ServeReadOwned(store: HashTable, c: Conn, script: seq<ReadAnswer>,
                        ghost repr: set<object>, ghost l: seq<Conn>, ghost k: nat, ghost t: T.Chains,
                        ghost m: map<nat, ConnSt>)
    returns (keep: bool, ghost tr: ReadTrace, ghost repr': set<object>)
    requires Parts(repr, store, l, t, m) && k < |l| && l[k] == c && Chunks(script)
    modifies repr
    ensures fresh(repr' - repr) && repr <= repr' && store in repr' && store.Repr <= repr' && Apart(c, store)
    ensures c.inBuf.data == old(c.inBuf.data) || fresh(c.inBuf.data)
    ensures c.outBuf.data == old(c.outBuf.data) || fresh(c.outBuf.data)
    ensures forall d :: d in l ==> Owns(repr', d)
    ensures forall d :: d in l && d != c ==> Apart(d, store) && d.Abs() == m[d.id]
    ensures forall d :: d in l && d != c ==> d.inBuf.data == old(d.inBuf.data) && d.outBuf.data == old(d.outBuf.data)
    ensures ConnReads(c.id, m[c.id], t, tr, c.Abs(), store.table, keep)
    ensures ReadAnswered(m[c.id], script, tr, keep)
  {
    hide ReadAnswered, Apart, Conn.Abs, ConnReads, HashTable.Valid;
    Others(l, k);
    keep, tr := ServeReadAlone(store, c, script, repr, l, k, t, m);
    repr' := repr + store.Repr + Storage(c.inBuf) + Storage(c.outBuf);
    forall d | d in l ensures Owns(repr', d) {
      assert old(Owns(repr, d));
    }
    hide Strangers, Owns;
  }

  /** One readable event on the k-th connection of a well-shaped heap. */
  method ServeRead(store: HashTable, c: Conn, script: seq<ReadAnswer>,
                   ghost repr: set<object>, ghost l: seq<Conn>, ghost k: nat, ghost t: T.Chains,
                   ghost m: map<nat, ConnSt>)
    returns (keep: bool, ghost tr: ReadTrace, ghost c': ConnSt, ghost repr': set<object>)
    requires Parts(repr, store, l, t, m) && k < |l| && l[k] == c && Chunks(script)
    modifies repr
    ensures fresh(repr' - repr) && repr <= repr'
    ensures c.id in m && ConnReads(c.id, m[c.id], t, tr, c', store.table, keep)
    ensures ReadAnswered(m[c.id], script, tr, keep)
    ensures Parts(repr', store, l, store.table, m[c.id := c'])
  {
    hide ReadAnswered, Apart, Conn.Abs, HashTable.Valid, ConnReads, ByteBuffer.ByteBuf.Valid;
    Others(l, k);
    keep, tr, repr' := ServeReadOwned(store, c, script, repr, l, k, t, m);
    c' := c.Abs();
    forall d | d in l && d != c ensures Strangers(c, d) {
      assert old(Strangers(c, d));
    }
    assert OthersStand(repr', store, l, k, m);
    forall i, j | 0 <= i < j < |l| && i != k && j != k ensures Strangers(l[i], l[j]) {
      assert old(Strangers(l[i], l[j]));
    }
    Reassemble(repr', store, l, k, m);
  }

  /** One writable event, and what it leaves of every other connection. */
  method ServeWriteAlone(store: HashTable, c: Conn, script: seq<WriteAnswer>,
                         ghost repr: set<object>, ghost l: seq<Conn>, ghost k: nat, ghost t: T.Chains,
                         ghost m: map<nat, ConnSt>)
    returns (keep: bool, ghost n: nat, ghost wend: WriteEnd)
    requires Parts(repr, store, l, t, m) && k < |l| && l[k] == c && Takings(script)
    modifies repr
    ensures Apart(c, store) && store.table == t && store.Repr == old(store.Repr)
    ensures c.inBuf.data == old(c.inBuf.data) && c.outBuf.data == old(c.outBuf.data)
    ensures forall d :: d in l && d != c ==> Apart(d, store) && d.Abs() == m[d.id]
    ensures forall d :: d in l && d != c ==> d.inBuf.data == old(d.inBuf.data) && d.outBuf.data == old(d.outBuf.data)
    ensures ConnWrites(m[c.id], n, wend, c.Abs(), keep)
    ensures WriteAnswered(m[c.id], script, n, wend, keep)
  {
    hide WriteAnswered, ByteBuffer.ByteBuf.Valid, ByteBuffer.ByteBuf.Contents, HashTable.Valid, Conn.Valid, Conn.Abs,
        ConnWrites;
    Others(l, k);
    forall d | d in l && d != c { OutOfReach(c, d, store); }
    keep, n, wend := HandleWrite(c, script);
    hide Strangers;
  }

  /** The same, in terms of the server's objects. */
  method ServeWriteOwned(store: HashTable, c: Conn, script: seq<WriteAnswer>,
                         ghost repr: set<object>, ghost l: seq<Conn>, ghost k: nat, ghost t: T.Chains,
                         ghost m: map<nat, ConnSt>)
    returns (keep: bool, ghost n: nat, ghost wend: WriteEnd)
    requires Parts(repr, store, l, t, m) && k < |l| && l[k] == c && Takings(script)
    modifies repr
    ensures Apart(c, store) && store.table == t && store.Repr <= repr
    ensures OthersStand(repr, store, l, k, m)
    ensures forall d :: d in l && d != c ==> d.inBuf.data == old(d.inBuf.data) && d.outBuf.data == old(d.outBuf.data)
    ensures ConnWrites(m[c.id], n, wend, c.Abs(), keep)
    ensures WriteAnswered(m[c.id], script, n, wend, keep)
  {
    hide WriteAnswered, Apart, Conn.Abs, ConnWrites, HashTable.Valid;
    Others(l, k);
    keep, n, wend := ServeWriteAlone(store, c, script, repr, l, k, t, m);
    forall d | d in l && d != c ensures Strangers(c, d) {
      assert old(Strangers(c, d));
    }
    forall d | d in l ensures Owns(repr, d) {
      assert old(Owns(repr, d));
    }
    hide Strangers, Owns;
  }

  /** One writable event on the k-th connection of a well-shaped heap. */
  method ServeWrite(store: HashTable, c: Conn, script: seq<WriteAnswer>,
                    ghost repr: set<object>, ghost l: seq<Conn>, ghost k: nat, ghost t: T.Chains,
                    ghost m: map<nat, ConnSt>)
    returns (keep: bool, ghost n: nat, ghost wend: WriteEnd, ghost c': ConnSt)
    requires Parts(repr, store, l, t, m) && k < |l| && l[k] == c && Takings(script)
    modifies repr
    ensures c.id in m && ConnWrites(m[c.id], n, wend, c', keep)
    ensures WriteAnswered(m[c.id], script, n, wend, keep)
    ensures Parts(repr, store, l, t, m[c.id := c'])
  {
    hide WriteAnswered, Apart, Conn.Abs, HashTable.Valid, ConnWrites, OthersStand, ByteBuffer.ByteBuf.Valid;
    Others(l, k);
    keep, n, wend := ServeWriteOwned(store, c, script, repr, l, k, t, m);
    c' := c.Abs();
    forall i, j | 0 <= i < j < |l| && i != k && j != k ensures Strangers(l[i], l[j]) {
      assert old(Strangers(l[i], l[j]));
    }
    Reassemble(repr, store, l, k, m);
  }

  // ---- Closing and accepting ----------------------------------------------

  lemma Without(l: seq<Conn>, k: nat)
    requires k < |l| && forall i :: 0 <= i < |l| && i != k ==> l[i] != l[k]
    ensures var l' := l[..k] + l[k + 1..];
            && (forall i :: 0 <= i < |l'| ==> l'[i] == l[if i < k then i else i + 1])
            && (forall d :: d in l' <==> d in l && d != l[k])
  {
    var l' := l[..k] + l[k + 1..];
    forall d | d in l && d != l[k] ensures d in l' {
      var i :| 0 <= i < |l| && l[i] == d;
      assert l'[if i < k then i else i - 1] == d;
    }
  }

  /** Dropping a connection from the list leaves the rest well shaped. */
  lemma DropOne(repr: set<object>, store: HashTable, l: seq<Conn>, k: nat, t: T.Chains, m: map<nat, ConnSt>)
    requires Parts(repr, store, l, t, m) && k < |l|
    ensures Parts(repr, store, l[..k] + l[k + 1..], t, m - {l[k].id})
    ensures forall d :: d in l[..k] + l[k + 1..] ==> Strangers(l[k], d)
  {
    hide Apart, Strangers, Conn.Abs, HashTable.Valid, Owns;
    Others(l, k);
    Without(l, k);
    var l' := l[..k] + l[k + 1..];
    forall i, j | 0 <= i < j < |l'| ensures Strangers(l'[i], l'[j]) {
      assert Strangers(l[if i < k then i else i + 1], l[if j < k then j else j + 1]);
    }
  }

  /** What the list says of its k-th connection. */
  lemma Listed(repr: set<object>, store: HashTable, l: seq<Conn>, k: nat, t: T.Chains, m: map<nat, ConnSt>)
    requires Parts(repr, store, l, t, m) && k < |l|
    ensures l[k].id in m && Apart(l[k], store) && store.Repr <= repr
    ensures l[k] in repr && l[k].inBuf in repr && l[k].outBuf in repr
    ensures forall i :: 0 <= i < |l| && i != k ==> l[i] != l[k]
  {
    hide Apart, Strangers, Conn.Abs, HashTable.Valid, Owns;
    Others(l, k);
  }

  /** Release a queue no listed connection uses. */
  method ReleaseBuf(b: ByteBuffer.ByteBuf, store: HashTable, ghost repr: set<object>, ghost l: seq<Conn>,
      ghost t: T.Chains, ghost m: map<nat, ConnSt>)
    requires Parts(repr, store, l, t, m) && b.Valid() && b !in store.Repr
    requires forall d :: d in l ==> b != d.inBuf && b != d.outBuf
    modifies b
    ensures Parts(repr, store, l, t, m)
  {
    hide ByteBuffer.ByteBuf.Valid, ByteBuffer.ByteBuf.Contents, HashTable.Valid, Conn.Valid, Conn.Abs, Strangers,
        Owns, Apart;
    b.Free();
  }

  /** Release the queues of a connection that is no longer listed. */
  method Release(c: Conn, store: HashTable, ghost repr: set<object>, ghost l: seq<Conn>, ghost t: T.Chains,
      ghost m: map<nat, ConnSt>)
    requires Parts(repr, store, l, t, m) && Apart(c, store)
    requires forall d :: d in l ==> Strangers(c, d)
    modifies c.inBuf, c.outBuf
    ensures Parts(repr, store, l, t, m)
  {
    hide ByteBuffer.ByteBuf.Valid, HashTable.Valid, Strangers, Parts, Apart;
    assert c.inBuf != c.outBuf;
    ReleaseBuf(c.inBuf, store, repr, l, t, m);
    ReleaseBuf(c.outBuf, store, repr, l, t, m);
  }

  /** Give a fresh connection its place at the head of the list, waiting for input. */
  lemma Adopted(repr: set<object>, store: HashTable, l: seq<Conn>, c: Conn, t: T.Chains, m: map<nat, ConnSt>)
    requires Parts(repr, store, l, t, m)
    requires c.id !in m && c !in repr && c.inBuf !in repr && c.outBuf !in repr
    requires c.Valid() && c.inBuf.data == null && c.outBuf.data == null
    requires c.Abs() == FreshConn()
    ensures Parts(repr + {c, c.inBuf, c.outBuf}, store, [c] + l, t, m[c.id := FreshConn()])
  {
    hide Conn.Abs, HashTable.Valid, ByteBuffer.ByteBuf.Valid;
    var l', repr' := [c] + l, repr + {c, c.inBuf, c.outBuf};
    assert Apart(c, store);
    forall d | d in l ensures Strangers(c, d) && Owns(repr', d) && d.id != c.id {
    }
    forall i, j | 0 <= i < j < |l'| ensures Strangers(l'[i], l'[j]) {
      if i > 0 {
        assert l'[i] == l[i - 1] && l'[j] == l[j - 1];
      }
    }
    assert c in l' && forall d :: d in l ==> d in l';
  }

  /** A store and no connection. */
  lemma NobodyYet(repr: set<object>, store: HashTable)
    requires store in repr && store.Repr <= repr && store.Valid()
    ensures Parts(repr, store, [], store.table, map[])
  {
    hide HashTable.Valid;
  }

  // ---- The event loop -----------------------------------------------------

  /** What one `accept` call answers: a socket, and what becomes of the three things done with it; or
      none. */
  datatype AcceptAnswer =
    | Socket(nonblocking: bool, memory: bool, registered: bool)
    | AcceptInterrupted
    | AcceptAgain
    | AcceptFailed

  /** How many of the sockets offered become connections. */
  function Admitted(waiting: seq<AcceptAnswer>): nat {
    if waiting == [] then 0
    else match waiting[0]
      case Socket(n, m, r) => (if n && m && r then 1 else 0) + Admitted(waiting[1..])
      case AcceptInterrupted => Admitted(waiting[1..])
      case _ => 0
  }

  /** The sockets made non-blocking, given memory and registered. */
  ghost function Good(waiting: seq<AcceptAnswer>): set<nat> {
    set i: nat | i < |waiting| && waiting[i] == Socket(true, true, true)
  }

  /** Those offered before the listener first has nobody waiting or fails are admitted, interruptions
      passed over. */
  lemma {:induction false} AdmittedBefore(a: seq<AcceptAnswer>, b: seq<AcceptAnswer>)
    requires forall i :: 0 <= i < |a| ==> a[i].Socket? || a[i].AcceptInterrupted?
    requires b == [] || b[0].AcceptAgain? || b[0].AcceptFailed?
    ensures Admitted(a + b) == |Good(a)|
    decreases |a|
  {
    if a == [] {
      assert a + b == b && Good(a) == {};
    } else {
      assert (a + b)[1..] == a[1..] + b;
      AdmittedBefore(a[1..], b);
      GoodTail(a);
    }
  }

  lemma GoodTail(a: seq<AcceptAnswer>)
    requires a != []
    ensures |Good(a)| == |Good(a[1..])| + if a[0] == Socket(true, true, true) then 1 else 0
  {
    var shifted := set i | i in Good(a[1..]) :: i + 1;
    SameSize(Good(a[1..]), shifted);
    if a[0] == Socket(true, true, true) {
      assert Good(a) == shifted + {0} by {
        forall i: nat ensures i in Good(a) <==> i in shifted + {0} {
          assert i > 0 ==> (i in shifted <==> i - 1 in Good(a[1..]));
        }
      }
    } else {
      assert Good(a) == shifted by {
        forall i: nat ensures i in Good(a) <==> i in shifted {
          assert i > 0 ==> (i in shifted <==> i - 1 in Good(a[1..]));
        }
      }
    }
  }

  lemma {:induction false} SameSize(s: set<nat>, shifted: set<nat>)
    requires shifted == set i | i in s :: i + 1
    ensures |s| == |shifted|
    decreases |s|
  {
    if s == {} {
    } else {
      var x :| x in s;
      var less := set i | i in s - {x} :: i + 1;
      SameSize(s - {x}, less);
      assert shifted == less + {x + 1} by {
        forall i: nat ensures i in shifted <==> i in less + {x + 1} {
          assert i > 0 ==> (i in shifted <==> i - 1 in s) && (i in less <==> i - 1 in s - {x});
        }
      }
    }
  }

  /** One entry of an `epoll_wait` batch: the listener with what its `accept` calls will answer, or a
      client with its readiness bits and what the kernel will answer to the calls it triggers. */
  datatype Event =
    | Listener(error: bool, waiting: seq<AcceptAnswer>)
    | Client(c: Conn, hangup: bool, readable: bool, writable: bool, incoming: seq<ReadAnswer>,
        outgoing: seq<WriteAnswer>)

  /** The step l from w is a read of what the kernel offered this client. */
  ghost predicate DidRead(ev: Event, w: World, l: Label)
    requires ev.Client?
    ensures DidRead(ev, w, l) ==> l.Read?
  {
    && l.Read? && l.id == ev.c.id && l.id in w.conns
    && ReadAnswered(w.conns[l.id], ev.incoming, l.tr, l.keep)
  }

  /** The step l from w is a write of what this client's socket took. */
  ghost predicate DidWrite(ev: Event, w: World, l: Label)
    requires ev.Client?
    ensures DidWrite(ev, w, l) ==> l.Write?
  {
    && l.Write? && l.id == ev.c.id && l.id in w.conns
    && WriteAnswered(w.conns[l.id], ev.outgoing, l.n, l.wend, l.keep)
  }

  /** A client's event takes a run of n steps further: by a close, or by a read and a write as its
      readiness bits say. A connection that does not survive the read is not written. */
  ghost predicate Handled(ev: Event, n: nat, ws: seq<World>, ls: seq<Label>)
    requires ev.Client? && |ws| == |ls| + 1 && n <= |ls|
  {
    if ev.hangup then
      |ls| == n + 1 && ls[n] == Close(ev.c.id)
    else if ev.readable then
      && |ls| > n && DidRead(ev, ws[n], ls[n])
      && if ev.writable && ls[n].keep then |ls| == n + 2 && DidWrite(ev, ws[n + 1], ls[n + 1]) else |ls| == n + 1
    else if ev.writable then
      |ls| == n + 1 && DidWrite(ev, ws[n], ls[n])
    else
      |ls| == n
  }

  /** The part of the run from step a to step b serves this entry. */
  ghost predicate Served(ev: Event, a: nat, b: nat, ws: seq<World>, ls: seq<Label>) {
    && a <= b <= |ls| && |ws| == |ls| + 1
    && match ev
       case Listener(error, waiting) =>
         !error && b == a + Admitted(waiting) && forall i :: a <= i < b ==> ls[i].Accept?
       case Client(_, _, _, _, _, _) =>
         Handled(ev, a, ws[..b + 1], ls[..b])
  }

  /** Entry i of the batch is served by the steps from marks[i] to marks[i + 1]. */
  ghost predicate ServedAll(events: seq<Event>, marks: seq<nat>, ws: seq<World>, ls: seq<Label>)
    ensures ServedAll(events, marks, ws, ls) ==> |marks| == |events| + 1
  {
    && |marks| == |events| + 1 && |ws| == |ls| + 1
    && forall i :: 0 <= i < |events| ==> Served(events[i], marks[i], marks[i + 1], ws, ls)
  }

  /** The steps from `from` on serve the first `served` entries of the batch, in order and one after
      the other: all of them, or those before the listener failed. */
  ghost predicate BatchServed(events: seq<Event>, served: nat, marks: seq<nat>, from: nat, ws: seq<World>,
      ls: seq<Label>) {
    && served <= |events| && ServedAll(events[..served], marks, ws, ls)
    && marks[0] == from && marks[served] == |ls|
    && (served < |events| ==> events[served].Listener? && events[served].error)
  }

  lemma NothingServed(n: nat, ws: seq<World>, ls: seq<Label>)
    requires |ws| == |ls| + 1
    ensures ServedAll([], [n], ws, ls)
  {
  }

  lemma BatchIs(events: seq<Event>, served: nat, marks: seq<nat>, ws: seq<World>, ls: seq<Label>)
    requires served <= |events| && ServedAll(events[..served], marks, ws, ls) && marks[served] == |ls|
    requires served < |events| ==> events[served].Listener? && events[served].error
    ensures BatchServed(events, served, marks, marks[0], ws, ls)
  {
    hide Served;
  }

  /** What served an entry still does when the run goes on. */
  lemma StillServed(ev: Event, a: nat, b: nat, ws: seq<World>, ls: seq<Label>, ws': seq<World>, ls': seq<Label>)
    requires |ws'| == |ls'| + 1 && ws <= ws' && ls <= ls' && Served(ev, a, b, ws, ls)
    ensures Served(ev, a, b, ws', ls')
  {
    hide Handled;
    assert ws'[..b + 1] == ws[..b + 1] && ls'[..b] == ls[..b];
  }

  lemma ServedMore(events: seq<Event>, marks: seq<nat>, ws: seq<World>, ls: seq<Label>, ev: Event, ws': seq<World>,
      ls': seq<Label>)
    requires ServedAll(events, marks, ws, ls) && marks[|events|] == |ls|
    requires ws <= ws' && ls <= ls' && Served(ev, |ls|, |ls'|, ws', ls')
    ensures ServedAll(events + [ev], marks + [|ls'|], ws', ls')
  {
    assert |ws'| == |ls'| + 1;
    hide Served;
    var all, ends := events + [ev], marks + [|ls'|];
    forall i | 0 <= i < |all| ensures Served(all[i], ends[i], ends[i + 1], ws', ls') {
      if i < |events| {
        StillServed(events[i], marks[i], marks[i + 1], ws, ls, ws', ls');
      }
    }
  }

  /** While memory lasts the step was refused nothing; while epoll works it keeps the connection
      exactly when something is left to wait for. */
  ghost predicate Blameless(w: World, l: Label) {
    (MEMORY_LASTS ==> StepGranted(l)) && (EPOLL_WORKS ==> StepKept(w, l))
  }

  ghost predicate AllBlameless(ws: seq<World>, ls: seq<Label>)
    requires |ws| == |ls| + 1
  {
    forall i :: 0 <= i < |ls| ==> Blameless(ws[i], ls[i])
  }

  lemma NeverRefused(ws: seq<World>, ls: seq<Label>, id: nat)
    requires |ws| == |ls| + 1 && AllBlameless(ws, ls) && MEMORY_LASTS
    ensures Unrefused(ls, |ls|, id)
  {
    forall i | 0 <= i < |ls| && ls[i].Read? && ls[i].id == id
      ensures !ls[i].tr.refusedIn && !ls[i].tr.refusedOut
    {
      assert Blameless(ws[i], ls[i]);
    }
  }

  /** Whatever connection a server has let go, it has a reason: while memory lasts and epoll works,
      that everything was written, that the peer left or hung up, or that a reply overflowed its
      queue. Every recorded run is of this kind. */
  lemma WhyItLeft(ws: seq<World>, ls: seq<Label>, i: nat, id: nat) returns (d: Departure)
    requires IsRun(ws, ls) && AllBlameless(ws, ls)
    requires i < |ls| && id in ws[i].conns && id !in ws[i + 1].conns
    ensures Explains(d, ws[i], ls[i], ws[i + 1], id)
    ensures EPOLL_WORKS ==> d != EpollRefused
    ensures MEMORY_LASTS ==>
              && d != ErrorLineLost
              && (d == ReplyLost ==> |ws[i].conns[id].outb + RepliesOf(ls[i].tr.recs)| > ByteBuffer.MAX)
  {
    assert Blameless(ws[i], ls[i]);
    hide IsRun, AllBlameless, StepKept, StepGranted, Explains, Inv;
    d := EveryRemoval(ws, ls, i, id);
  }

  /** A run goes on by one step. */
  lemma RunMore(ws: seq<World>, ls: seq<Label>, l: Label, w: World)
    requires IsRun(ws, ls) && Step(ws[|ls|], l, w)
    requires AllBlameless(ws, ls) && Blameless(ws[|ls|], l)
    ensures IsRun(ws + [w], ls + [l]) && AllBlameless(ws + [w], ls + [l])
  {
    hide Step, Start, Blameless;
    var ws', ls' := ws + [w], ls + [l];
    forall i | 0 <= i < |ls'| ensures Step(ws'[i], ls'[i], ws'[i + 1]) && Blameless(ws'[i], ls'[i]) {
      if i < |ls| {
        assert Step(ws[i], ls[i], ws[i + 1]) && Blameless(ws[i], ls[i]);
      }
    }
  }

  lemma ReadBlameless(w: World, l: Label, script: seq<ReadAnswer>)
    requires l.Read? && l.id in w.conns && ReadAnswered(w.conns[l.id], script, l.tr, l.keep)
    ensures Blameless(w, l)
  {
    hide ReadsFrom, NothingRefused, GoesOnReading;
  }

  lemma WriteBlameless(w: World, l: Label, script: seq<WriteAnswer>)
    requires l.Write? && l.id in w.conns && WriteAnswered(w.conns[l.id], script, l.n, l.wend, l.keep)
    ensures Blameless(w, l)
  {
    hide WritesTo, GoesOnWriting;
  }

  lemma StillListed(l: seq<Conn>, k: nat)
    requires k < |l|
    ensures forall d :: d in l && d != l[k] ==> d in l[..k] + l[k + 1..]
  {
    forall d | d in l && d != l[k] ensures d in l[..k] + l[k + 1..] {
      var i :| 0 <= i < |l| && l[i] == d;
      assert (l[..k] + l[k + 1..])[if i < k then i else i - 1] == d;
    }
  }

  class Server {
    const store: HashTable
    var conns: seq<Conn>
    var shutdown: bool

    /** The machine state the heap stands for, the objects it is made of, and the next identity. */
    ghost var world: World
    ghost var Repr: set<object>
    ghost var nextId: nat

    /** The whole run so far: the states of the machine and the steps between them. */
    ghost var past: seq<World>
    ghost var steps: seq<Label>

    ghost predicate Valid()
      reads this`conns, this`world, this`Repr, this`nextId, Repr
      ensures Valid() ==> Inv(world) && this !in Repr
    {
      && this !in Repr
      && Parts(Repr, store, conns, world.table, world.conns)
      && Inv(world)
      && forall id :: id in world.books ==> id < nextId
    }

    /** The heap stands for the last state of a run of the machine. */
    ghost predicate Recorded()
      reads this`conns, this`world, this`Repr, this`nextId, this`past, this`steps, Repr
      ensures Recorded() ==> Valid() && this !in Repr && IsRun(past, steps) && past[|steps|] == world
      ensures Recorded() ==> AllBlameless(past, steps)
    {
      Valid() && IsRun(past, steps) && past[|steps|] == world && AllBlameless(past, steps)
    }

    constructor (store: HashTable)
      requires store.Valid() && store.table == T.Empty()
      ensures Recorded() && conns == [] && steps == [] && !shutdown
      ensures this.store == store
    {
      hide *;
      StartOk();
      StartIs();
      NobodyYet({store} + store.Repr, store);
      this.store := store;
      conns, shutdown := [], false;
      world, Repr, nextId := Start(), {store} + store.Repr, 0;
      past, steps := [Start()], [];
      new;
      WellShaped();
      RunStarts();
      OnRecord();
    }

    static lemma RunStarts()
      ensures IsRun([Start()], []) && AllBlameless([Start()], [])
    {
    }

    lemma OnRecord()
      requires Valid() && IsRun(past, steps) && past[|steps|] == world && AllBlameless(past, steps)
      ensures Recorded()
    {
      hide Valid, IsRun, AllBlameless;
    }

    /** Write a step down. */
    ghost method Note(l: Label)
      requires Valid() && IsRun(past, steps) && Step(past[|steps|], l, world)
      requires AllBlameless(past, steps) && Blameless(past[|steps|], l)
      modifies this`past, this`steps
      ensures Recorded() && steps == old(steps) + [l] && past == old(past) + [world] && world == old(world)
    {
      hide Valid, Step, Blameless, AllBlameless;
      RunMore(past, steps, l, world);
      past, steps := past + [world], steps + [l];
    }

    lemma WellShaped()
      requires this !in Repr && Parts(Repr, store, conns, world.table, world.conns)
      requires Inv(world) && forall id :: id in world.books ==> id < nextId
      ensures Valid()
    {
    }

    static lemma StartIs()
      ensures Start().table == T.Empty() && Start().conns == map[] && Start().books == map[]
    {
    }

    /** Where the list holds a connection. */
    method Find(c: Conn, ghost k: nat) returns (j: nat)
      requires k < |conns| && conns[k] == c
      ensures j <= k && conns[j] == c
    {
      j := 0;
      while conns[j] != c
        invariant j <= k
        decreases k - j
      {
        j := j + 1;
      }
    }

    /** Take a connection out of the list. */
    method Unlink(c: Conn, ghost k: nat)
      requires k < |conns| && conns[k] == c
      requires forall i :: 0 <= i < |conns| && i != k ==> conns[i] != conns[k]
      modifies this`conns
      ensures conns == old(conns)[..k] + old(conns)[k + 1..]
    {
      var j := Find(c, k);
      conns := conns[..j] + conns[j + 1..];
    }

    /** Unlink a connection and release its queues. */
    method CloseConn(c: Conn, ghost k: nat, ghost t: T.Chains, ghost m: map<nat, ConnSt>)
      requires this !in Repr && Parts(Repr, store, conns, t, m) && k < |conns| && conns[k] == c
      modifies this`conns, Repr
      ensures Parts(Repr, store, conns, t, m - {c.id})
      ensures conns == old(conns)[..k] + old(conns)[k + 1..]
    {
      Listed(Repr, store, conns, k, t, m);
      DropOne(Repr, store, conns, k, t, m);
      hide Apart, Strangers, Parts, Owns;
      Unlink(c, k);
      Release(c, store, Repr, conns, t, m - {c.id});
    }

    /** A readable event: serve it, and close the connection when it does not survive. */
    method OnReadable(c: Conn, ghost k: nat, script: seq<ReadAnswer>) returns (keep: bool, ghost l: Label)
      requires Valid() && k < |conns| && conns[k] == c && Chunks(script)
      modifies this`conns, this`world, this`Repr, Repr
      ensures Valid() && fresh(Repr - old(Repr))
      ensures l.Read? && l.id == c.id && l.keep == keep && Step(old(world), l, world)
      ensures c.id in old(world).conns && ReadAnswered(old(world).conns[c.id], script, l.tr, keep)
      ensures conns == if keep then old(conns) else old(conns)[..k] + old(conns)[k + 1..]
    {
      hide Parts, Inv, ConnReads, ReadAnswered;
      ghost var w, tr, c', repr' := world, ReadTrace([], Drained, false, [], Waiting, [], [], false, false),
          FreshConn(), Repr;
      keep, tr, c', repr' := ServeRead(store, c, script, Repr, conns, k, w.table, w.conns);
      Repr := repr';
      ghost var m := w.conns[c.id := c'];
      if !keep {
        CloseConn(c, k, store.table, m);
        assert m - {c.id} == w.conns - {c.id};
      }
      LiveHasBook(w, c.id);
      l := Read(c.id, tr, c', keep);
      world := World(store.table, Updated(w.conns, c.id, c', keep), w.books[c.id := AfterRead(w.books[c.id], tr)],
          w.log + tr.recs);
      StepKeeps(w, l, world);
    }

    static lemma LiveHasBook(w: World, id: nat)
      requires Inv(w) && id in w.conns
      ensures id in w.books
    {
    }

    /** A writable event. */
    method OnWritable(c: Conn, ghost k: nat, script: seq<WriteAnswer>) returns (keep: bool, ghost l: Label)
      requires Valid() && k < |conns| && conns[k] == c && Takings(script)
      modifies this`conns, this`world, Repr
      ensures Valid()
      ensures l.Write? && l.id == c.id && l.keep == keep && Step(old(world), l, world)
      ensures c.id in old(world).conns && WriteAnswered(old(world).conns[c.id], script, l.n, l.wend, keep)
      ensures conns == if keep then old(conns) else old(conns)[..k] + old(conns)[k + 1..]
    {
      hide Parts, Inv, ConnWrites, WriteAnswered;
      ghost var w, n, wend, c' := world, 0, Blocked, FreshConn();
      keep, n, wend, c' := ServeWrite(store, c, script, Repr, conns, k, w.table, w.conns);
      ghost var m := w.conns[c.id := c'];
      if !keep {
        CloseConn(c, k, w.table, m);
        assert m - {c.id} == w.conns - {c.id};
      }
      LiveHasBook(w, c.id);
      l := Write(c.id, n, wend, c', keep);
      TookWithin(w.conns[c.id], n, wend, c', keep);
      world := World(w.table, Updated(w.conns, c.id, c', keep),
                     w.books[c.id := w.books[c.id].(sent := w.books[c.id].sent + w.conns[c.id].outb[..n])], w.log);
      StepKeeps(w, l, world);
    }

    static lemma TookWithin(c: ConnSt, n: nat, wend: WriteEnd, c': ConnSt, keep: bool)
      requires ConnWrites(c, n, wend, c', keep)
      ensures n <= |c.outb|
    {
    }

    /** An error or hang-up event: the connection is removed. */
    method OnHangup(c: Conn, ghost k: nat) returns (ghost l: Label)
      requires Valid() && k < |conns| && conns[k] == c
      modifies this`conns, this`world, Repr
      ensures Valid()
      ensures l == Close(c.id) && Step(old(world), l, world)
      ensures conns == old(conns)[..k] + old(conns)[k + 1..]
    {
      hide Parts, Inv, Apart;
      ghost var w := world;
      Listed(Repr, store, conns, k, w.table, w.conns);
      CloseConn(c, k, w.table, w.conns);
      l := Close(c.id);
      world := w.(conns := w.conns - {c.id});
      StepKeeps(w, l, world);
    }

    // ---- Accepting ----

    /** Take a fresh connection into the books. */
    ghost method Enlist(c: Conn, repr: set<object>) returns (l: Label)
      requires |conns| > 0 && conns[0] == c && c.id == nextId && repr == Repr
      requires Parts(repr, store, conns[1..], world.table, world.conns)
      requires this !in Repr && Inv(world) && forall id :: id in world.books ==> id < nextId
      requires c !in repr && c.inBuf !in repr && c.outBuf !in repr
      requires c.Valid() && c.inBuf.data == null && c.outBuf.data == null && c.Abs() == FreshConn()
      modifies this`world, this`Repr, this`nextId
      ensures Valid() && Repr == repr + {c, c.inBuf, c.outBuf}
      ensures l == Accept(c.id) && Step(old(world), l, world)
    {
      hide Inv, Parts, Conn.Abs, Conn.Valid, Server.Valid;
      ghost var w := world;
      l := Accept(c.id);
      Unknown(w, c.id);
      Adopted(repr, store, conns[1..], c, w.table, w.conns);
      assert [c] + conns[1..] == conns;
      Repr := repr + {c, c.inBuf, c.outBuf};
      world := World(w.table, w.conns[c.id := FreshConn()], w.books[c.id := Book([], [], [], [], true)], w.log);
      nextId := nextId + 1;
      StepKeeps(w, l, world);
      WellShaped();
    }

    static lemma Unknown(w: World, id: nat)
      requires Inv(w) && id !in w.books
      ensures id !in w.conns && |w.table| == Hash.BUCKETS
    {
    }

    /** A record for a new connection at the head of the list, dropped again when epoll refuses it. */
    method AcceptOne(registered: bool) returns (ghost l: Label)
      requires Valid()
      modifies this`conns, this`world, this`Repr, this`nextId
      ensures Valid() && fresh(Repr - old(Repr)) && old(Repr) <= Repr
      ensures l == Accept(old(nextId))
      ensures if registered then
                && Step(old(world), l, world)
                && |conns| == |old(conns)| + 1 && conns[1..] == old(conns) && fresh(conns[0])
              else
                world == old(world) && conns == old(conns)
    {
      hide Inv, Parts, Step, ByteBuffer.ByteBuf.Valid, ByteBuffer.ByteBuf.Contents;
      l := Accept(nextId);
      var c := new Conn(nextId);
      conns := [c] + conns;
      if !registered {
        conns := conns[1..];
        c.inBuf.Free();
        c.outBuf.Free();
        return;
      }
      c.events := Mask(true, false);
      assert conns[1..] == old(conns);
      l := Enlist(c, Repr);
    }

    /** Accept until nobody waits. */
    method AcceptClients(waiting: seq<AcceptAnswer>)
      requires Recorded()
      modifies this`conns, this`world, this`Repr, this`nextId, this`past, this`steps
      ensures Recorded() && fresh(Repr - old(Repr)) && old(Repr) <= Repr
      ensures old(steps) <= steps && old(past) <= past && |steps| == |old(steps)| + Admitted(waiting)
      ensures forall i :: |old(steps)| <= i < |steps| ==> steps[i].Accept?
      ensures forall d :: d in old(conns) ==> d in conns
    {
      hide Valid, IsRun, Step;
      var i := 0;
      assert waiting[0..] == waiting;
      while i < |waiting|
        invariant 0 <= i <= |waiting|
        invariant Recorded() && fresh(Repr - old(Repr)) && old(Repr) <= Repr
        invariant old(steps) <= steps && old(past) <= past
            && |steps| + Admitted(waiting[i..]) == |old(steps)| + Admitted(waiting)
        invariant forall j :: |old(steps)| <= j < |steps| ==> steps[j].Accept?
        invariant forall d :: d in old(conns) ==> d in conns
      {
        var answer := waiting[i];
        assert waiting[i..][1..] == waiting[i + 1..];
        i := i + 1;
        match answer {
          case AcceptInterrupted =>
          case AcceptAgain =>
            return;
          case AcceptFailed =>
            return;
          case Socket(nonblocking, memory, registered) =>
            if nonblocking && memory {
              ghost var before := conns;
              ghost var l := AcceptOne(registered);
              if registered {
                assert forall d :: d in before ==> d in conns[1..];
                Note(l);
              }
            }
        }
      }
    }

    // ---- One batch ----

    /** A readable event, written down. */
    method Readable(ev: Event, ghost k: nat) returns (keep: bool)
      requires Recorded() && ev.Client? && k < |conns| && conns[k] == ev.c && Chunks(ev.incoming)
      modifies this`conns, this`world, this`Repr, this`past, this`steps, Repr
      ensures Recorded() && fresh(Repr - old(Repr))
      ensures |steps| == |old(steps)| + 1 && old(steps) <= steps && old(past) <= past
      ensures DidRead(ev, old(world), steps[|old(steps)|]) && steps[|old(steps)|].keep == keep
      ensures conns == if keep then old(conns) else old(conns)[..k] + old(conns)[k + 1..]
    {
      hide Recorded, Valid, Inv, IsRun, AllBlameless, Blameless, Step, Chunks, ReadAnswered;
      ghost var l;
      keep, l := OnReadable(ev.c, k, ev.incoming);
      ReadBlameless(past[|steps|], l, ev.incoming);
      Note(l);
    }

    /** A writable event, written down. */
    method Writable(ev: Event, ghost k: nat) returns (keep: bool)
      requires Recorded() && ev.Client? && k < |conns| && conns[k] == ev.c && Takings(ev.outgoing)
      modifies this`conns, this`world, this`past, this`steps, Repr
      ensures Recorded() && Repr == old(Repr)
      ensures |steps| == |old(steps)| + 1 && old(steps) <= steps && old(past) <= past
      ensures DidWrite(ev, old(world), steps[|old(steps)|]) && steps[|old(steps)|].keep == keep
      ensures conns == if keep then old(conns) else old(conns)[..k] + old(conns)[k + 1..]
    {
      hide Recorded, Valid, Inv, IsRun, AllBlameless, Blameless, Step, Takings, WriteAnswered;
      ghost var l;
      keep, l := OnWritable(ev.c, k, ev.outgoing);
      WriteBlameless(past[|steps|], l, ev.outgoing);
      Note(l);
    }

    /** An error or hang-up, written down. */
    method Hangup(c: Conn, ghost k: nat)
      requires Recorded() && k < |conns| && conns[k] == c
      modifies this`conns, this`world, this`past, this`steps, Repr
      ensures Recorded() && Repr == old(Repr)
      ensures steps == old(steps) + [Close(c.id)] && old(past) <= past
      ensures world.table == old(world.table) && world.log == old(world.log)
      ensures conns == old(conns)[..k] + old(conns)[k + 1..]
    {
      hide Recorded, Valid, Inv, IsRun, AllBlameless;
      ghost var l := OnHangup(c, k);
      Note(l);
    }

    /** Serve one client's event. */
    method OnClient(ev: Event, ghost k: nat)
      requires Recorded() && ev.Client? && k < |conns| && conns[k] == ev.c
      requires Chunks(ev.incoming) && Takings(ev.outgoing)
      modifies this`conns, this`world, this`Repr, this`past, this`steps, Repr
      ensures Recorded() && fresh(Repr - old(Repr))
      ensures old(steps) <= steps && old(past) <= past && Handled(ev, |old(steps)|, past, steps)
      ensures forall d :: d in old(conns) && d != ev.c ==> d in conns
    {
      hide Recorded, Valid, IsRun, Chunks, Takings, DidRead, DidWrite, Inv, Step, AllBlameless, Start, Parts;
      StillListed(conns, k);
      if ev.hangup {
        Hangup(ev.c, k);
        return;
      }
      if ev.readable {
        var keep := Readable(ev, k);
        if !keep {
          return;
        }
      }
      if ev.writable {
        var keep := Writable(ev, k);
      }
    }

    /** Serve one entry of a batch; only a failing listener is refused. */
    method OnEvent(ev: Event) returns (ok: bool)
      requires Recorded()
      requires ev.Client? ==> ev.c in conns && Chunks(ev.incoming) && Takings(ev.outgoing)
      modifies this`conns, this`world, this`Repr, this`nextId, this`past, this`steps, Repr
      ensures Recorded() && fresh(Repr - old(Repr)) && old(steps) <= steps && old(past) <= past
      ensures ok <==> !(ev.Listener? && ev.error)
      ensures if ok then Served(ev, |old(steps)|, |steps|, past, steps) else steps == old(steps) && past == old(past)
      ensures forall d :: d in old(conns) && (ev.Client? ==> d != ev.c) ==> d in conns
    {
      hide Recorded, Valid, IsRun, Handled, Chunks, Takings;
      ok := true;
      match ev {
        case Listener(error, waiting) =>
          if error {
            return false;
          }
          AcceptClients(waiting);
        case Client(c, _, _, _, _, _) =>
          ghost var k: nat :| k < |conns| && conns[k] == c;
          OnClient(ev, k);
          assert past[..|steps| + 1] == past && steps[..|steps|] == steps;
      }
    }

    /** Serve a batch. The kernel reports a socket at most once in a batch, so every connection an
        entry names is still listed when its turn comes. A failing listener ends the batch and stops
        the server. */
    method RunBatch(events: seq<Event>) returns (served: nat, ghost marks: seq<nat>)
      requires Recorded()
      requires forall i :: 0 <= i < |events| && events[i].Client? ==>
                 events[i].c in conns && Chunks(events[i].incoming) && Takings(events[i].outgoing)
      requires forall i, j :: 0 <= i < j < |events| && events[i].Client? && events[j].Client? ==>
                 events[i].c != events[j].c
      modifies this`conns, this`world, this`Repr, this`nextId, this`past, this`steps, this`shutdown, Repr
      ensures Recorded() && fresh(Repr - old(Repr)) && old(steps) <= steps
      ensures BatchServed(events, served, marks, |old(steps)|, past, steps)
      ensures shutdown == (old(shutdown) || served < |events|)
    {
      hide *;
      served, marks := 0, [|steps|];
      NothingServed(|steps|, past, steps);
      assert events[..0] == [];
      while served < |events|
        invariant served <= |events|
        invariant Recorded() && fresh(Repr - old(Repr)) && old(steps) <= steps
        invariant forall j :: served <= j < |events| && events[j].Client? ==> events[j].c in conns
        invariant ServedAll(events[..served], marks, past, steps)
        invariant marks[0] == |old(steps)| && marks[served] == |steps|
        invariant shutdown == old(shutdown)
      {
        ghost var ws, ls := past, steps;
        var ok := OnEvent(events[served]);
        if !ok {
          shutdown := true;
          BatchIs(events, served, marks, past, steps);
          return;
        }
        ServedMore(events[..served], marks, ws, ls, events[served], past, steps);
        assert events[..served] + [events[served]] == events[..served + 1];
        marks := marks + [|steps|];
        served := served + 1;
      }
      BatchIs(events, served, marks, past, steps);
    }

    /** On the way out every connection is closed; the store stays as it is. */
    method Teardown()
      requires Recorded()
      modifies this`conns, this`world, this`past, this`steps, Repr
      ensures Recorded() && conns == [] && world.table == old(world.table) && world.log == old(world.log)
    {
      hide Recorded, Valid, IsRun;
      while |conns| > 0
        invariant Recorded() && Repr == old(Repr)
        invariant world.table == old(world.table) && world.log == old(world.log)
      {
        Hangup(conns[0], 0);
      }
    }

    // ---- What the heap says of the run ----

    /** In every state a server can reach: the table on the heap is the one a serial replay of the log
        on plain maps gives; the requests of a connection are a prefix of the frames in the bytes it
        sent; what its socket took followed by what its output queue holds is all its replies, each
        once and in order; and its interest mask says what it waits for. */
    lemma WhatClientsSee(c: Conn)
      requires Recorded() && c in conns
      ensures MapLog(map[], world.log, T.ToMap(store.table))
      ensures c.id in world.books && c.Valid()
      ensures ArgvsOf(c.id, world.log) <= Split(world.books[c.id].recv).argvs
      ensures var b := world.books[c.id];
              && b.sent + c.outBuf.Contents() == RepliesTo(c.id, world.log) + b.tail
              && (!c.closeAfterDrain ==> b.tail == []) && LinesOk(b)
      ensures var waiting := c.outBuf.Contents() != [];
              && c.events == Mask(!c.closeAfterDrain, waiting)
              && (c.closeAfterDrain ==> waiting)
    {
      Standing(c);
      var n := |steps|;
      hide Valid, IsRun, AllBlameless, Inv, Split, MapLog, T.ToMap, T.WellFormed, ByteBuffer.ByteBuf.Valid,
          ByteBuffer.ByteBuf.Contents;
      SerialConsistency(past, steps, n, c.id);
      ReplyConservation(past, steps, n, c.id);
      InterestMask(past, steps, n, c.id);
    }

    /** While memory lasts, a connection on the heap that has received all of `input`, or as much of it
        as came before a protocol error, with room at every event, has dispatched exactly the frames of the
        input parsed in one go, and winds down exactly when that parse ends in an error. */
    lemma InputIsServed(c: Conn, input: bytes)
      requires Recorded() && MEMORY_LASTS && c in conns && c.id in world.books
      requires RoomyRun(past, steps, |steps|, c.id)
      requires world.books[c.id].recv <= input && (world.books[c.id].recv == input || c.closeAfterDrain)
      ensures ArgvsOf(c.id, world.log) == Split(input).argvs
      ensures c.closeAfterDrain == Split(input).bad && c.Valid()
      ensures world.books[c.id].sent + c.outBuf.Contents() ==
              RepliesTo(c.id, world.log) + if Split(input).bad then ProtocolLine() else []
    {
      hide Recorded, Valid, IsRun, AllBlameless, Unrefused, RoomyRun, Inv, Split, ProtocolLine, LeftDrained,
        ByteBuffer.ByteBuf.Valid, ByteBuffer.ByteBuf.Contents, Conn.Valid;
      Standing(c);
      NeverRefused(past, steps, c.id);
      DispatchedIsParsed(past, steps, c.id, input);
    }

    lemma Standing(c: Conn)
      requires Valid() && c in conns
      ensures c.Valid() && c.id in world.conns && c.id in world.books && world.conns[c.id] == c.Abs()
      ensures store.table == world.table
    {
      hide Inv, Conn.Abs, HashTable.Valid, Strangers, Owns;
      assert Apart(c, store);
      LiveHasBook(world, c.id);
    }
  }
}
