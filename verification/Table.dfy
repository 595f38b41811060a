/** The chained table as a value: 1024 chains of entries, and the finite map they stand for. */
module Table {
  import opened Bytes
  import opened Hash

  datatype Entry = Entry(key: bytes, val: bytes)

  type Chain = seq<Entry>
  type Chains = seq<Chain>

  /** Position of the first entry with key `k`, or |c|. */
  function Find(c: Chain, k: bytes): (j: nat)
    ensures j <= |c|
    ensures forall i :: 0 <= i < j ==> c[i].key != k
    ensures j < |c| ==> c[j].key == k
  {
    if c == [] || c[0].key == k then 0 else 1 + Find(c[1..], k)
  }

  function LookupIn(c: Chain, k: bytes): Option<bytes> {
    if Find(c, k) < |c| then Some(c[Find(c, k)].val) else None
  }

  /** Overwrite in place, or put a new entry in front. */
  function SetIn(c: Chain, k: bytes, v: bytes): Chain {
    if Find(c, k) < |c| then c[Find(c, k) := Entry(k, v)] else [Entry(k, v)] + c
  }

  /** Unlink the first entry with the key. */
  function DelIn(c: Chain, k: bytes): Chain {
    if Find(c, k) < |c| then c[..Find(c, k)] + c[Find(c, k) + 1..] else c
  }

  function Empty(): (t: Chains)
    ensures |t| == BUCKETS == 1024
  {
    seq(BUCKETS, _ => [])
  }

  function Lookup(t: Chains, k: bytes): Option<bytes>
    requires |t| == BUCKETS
  {
    LookupIn(t[BucketOf(k)], k)
  }

  function Set(t: Chains, k: bytes, v: bytes): (t': Chains)
    requires |t| == BUCKETS
    ensures |t'| == BUCKETS
  {
    t[BucketOf(k) := SetIn(t[BucketOf(k)], k, v)]
  }

  function Del(t: Chains, k: bytes): (t': Chains)
    requires |t| == BUCKETS
    ensures |t'| == BUCKETS
  {
    t[BucketOf(k) := DelIn(t[BucketOf(k)], k)]
  }

  /** All entries in the order a scan meets them. */
  function Entries(t: Chains): seq<Entry> {
    if t == [] then [] else t[0] + Entries(t[1..])
  }

  ghost predicate DistinctKeys(es: seq<Entry>) {
    forall i, j :: 0 <= i < j < |es| ==> es[i].key != es[j].key
  }

  /** Every entry sits in the bucket of its hash, and no key appears twice. */
  ghost predicate WellFormed(t: Chains)
    ensures WellFormed(t) ==> |t| == BUCKETS
  {
    && |t| == BUCKETS
    && (forall i :: 0 <= i < BUCKETS ==> DistinctKeys(t[i]))
    && (forall i, e :: 0 <= i < BUCKETS && e in t[i] ==> BucketOf(e.key) == i)
  }

  function MapOf(es: seq<Entry>): map<bytes, bytes> {
    if es == [] then map[] else MapOf(es[1..])[es[0].key := es[0].val]
  }

  /** The finite map a table stands for. */
  function ToMap(t: Chains): map<bytes, bytes> {
    MapOf(Entries(t))
  }

  // ---- Chains -------------------------------------------------------------

  lemma FindUnique(c: Chain, k: bytes, j: nat)
    requires DistinctKeys(c) && j < |c| && c[j].key == k
    ensures Find(c, k) == j
  {
  }

  lemma SetInKeeps(c: Chain, k: bytes, v: bytes)
    requires DistinctKeys(c)
    ensures var c' := SetIn(c, k, v);
            && DistinctKeys(c')
            && (forall e :: e in c' ==> e.key == k || e in c)
            && (forall x :: LookupIn(c', x) == if x == k then Some(v) else LookupIn(c, x))
            && |c'| == |c| + if LookupIn(c, k).None? then 1 else 0
  {
    hide Find;
    var c' := SetIn(c, k, v);
    forall x ensures LookupIn(c', x) == if x == k then Some(v) else LookupIn(c, x) {
      var j, j' := Find(c, x), Find(c', x);
      assert j < |c| && x != k ==> c'[if |c'| == |c| then j else j + 1].key == x;
      if x == k {
        assert c'[if |c'| == |c| then j else 0] == Entry(k, v);
      } else if j' < |c'| {
        FindUnique(c, x, if |c'| == |c| then j' else j' - 1);
      }
    }
  }

  lemma DelInKeeps(c: Chain, k: bytes)
    requires DistinctKeys(c)
    ensures var c' := DelIn(c, k);
            && DistinctKeys(c')
            && (forall e :: e in c' ==> e in c)
            && (forall x :: LookupIn(c', x) == if x == k then None else LookupIn(c, x))
            && |c'| == |c| - if LookupIn(c, k).None? then 0 else 1
  {
    hide Find;
    var c', d := DelIn(c, k), Find(c, k);
    forall x ensures LookupIn(c', x) == if x == k then None else LookupIn(c, x) {
      var j, j' := Find(c, x), Find(c', x);
      assert d < |c| && j < |c| && x != k ==> c'[if j < d then j else j - 1] == c[j];
      if d < |c| && j' < |c'| {
        assert c'[j'] == c[if j' < d then j' else j' + 1];
        FindUnique(c, x, if j' < d then j' else j' + 1);
      }
    }
  }

  // ---- The map view -------------------------------------------------------

  lemma {:induction false} MapOfKeys(es: seq<Entry>, k: bytes)
    ensures k in MapOf(es) <==> exists i :: 0 <= i < |es| && es[i].key == k
  {
    if es == [] {
    } else {
      MapOfKeys(es[1..], k);
      assert forall i :: 0 <= i < |es| - 1 ==> es[1..][i] == es[i + 1];
      assert (exists i :: 0 <= i < |es| && es[i].key == k) <==>
             es[0].key == k || exists i :: 0 <= i < |es| - 1 && es[1..][i].key == k;
    }
  }

  lemma {:induction false} MapOfMeaning(es: seq<Entry>)
    requires DistinctKeys(es)
    ensures |MapOf(es)| == |es|
    ensures forall i :: 0 <= i < |es| ==> es[i].key in MapOf(es) && MapOf(es)[es[i].key] == es[i].val
  {
    if es == [] {
    } else {
      MapOfMeaning(es[1..]);
      MapOfKeys(es[1..], es[0].key);
      assert forall i :: 0 <= i < |es| - 1 ==> es[1..][i] == es[i + 1];
      assert MapOf(es).Keys == MapOf(es[1..]).Keys + {es[0].key};
    }
  }

  lemma {:induction false} EntriesMember(t: Chains, e: Entry)
    ensures e in Entries(t) <==> exists i :: 0 <= i < |t| && e in t[i]
  {
    if t == [] {
    } else {
      EntriesMember(t[1..], e);
      if e in Entries(t) {
        if e in t[0] {
        } else {
          var i :| 0 <= i < |t[1..]| && e in t[1..][i];
          assert e in t[i + 1];
        }
      }
      if i :| 0 <= i < |t| && e in t[i] {
        if i > 0 {
          assert e in t[1..][i - 1];
        }
      }
    }
  }

  lemma DistinctJoin(a: seq<Entry>, b: seq<Entry>)
    requires DistinctKeys(a) && DistinctKeys(b)
    requires forall e, f :: e in a && f in b ==> e.key != f.key
    ensures DistinctKeys(a + b)
  {
    var es, n := a + b, |a|;
    forall i, j | 0 <= i < j < |es| ensures es[i].key != es[j].key {
      assert i < n ==> es[i] in a;
      assert j >= n ==> es[j] in b;
      assert i >= n ==> es[i] == b[i - n] && es[j] == b[j - n];
    }
  }

  /** A scan meets no key twice. */
  lemma {:induction false} EntriesDistinct(t: Chains)
    requires forall i :: 0 <= i < |t| ==> DistinctKeys(t[i])
    requires forall i, j, e, f :: 0 <= i < j < |t| && e in t[i] && f in t[j] ==> e.key != f.key
    ensures DistinctKeys(Entries(t))
  {
    if t == [] {
    } else {
      var rest := t[1..];
      assert forall i :: 0 <= i < |rest| ==> rest[i] == t[i + 1];
      EntriesDistinct(rest);
      forall e, f | e in t[0] && f in Entries(rest) ensures e.key != f.key {
        EntriesMember(rest, f);
        var j :| 0 <= j < |rest| && f in rest[j];
        assert f in t[j + 1];
      }
      DistinctJoin(t[0], Entries(rest));
    }
  }

  lemma WellFormedDistinct(t: Chains)
    requires WellFormed(t)
    ensures DistinctKeys(Entries(t))
    ensures |ToMap(t)| == |Entries(t)|
  {
    hide BucketOf;
    EntriesDistinct(t);
    MapOfMeaning(Entries(t));
  }

  /** Looking a key up in its chain agrees with the map. */
  lemma LookupIsMap(t: Chains, k: bytes)
    requires WellFormed(t)
    ensures Lookup(t, k) == if k in ToMap(t) then Some(ToMap(t)[k]) else None
  {
    hide BucketOf;
    WellFormedDistinct(t);
    var es := Entries(t);
    MapOfMeaning(es);
    MapOfKeys(es, k);
    var c := t[BucketOf(k)];
    forall i | 0 <= i < |es| && es[i].key == k ensures es[i] in c {
      EntriesMember(t, es[i]);
    }
    var j := Find(c, k);
    if j < |c| {
      EntriesMember(t, c[j]);
      var i :| 0 <= i < |es| && es[i] == c[j];
      assert es[i].key == k;
    }
  }

  lemma EmptyIsEmpty()
    ensures WellFormed(Empty()) && ToMap(Empty()) == map[] && Entries(Empty()) == []
  {
    hide BucketOf;
    var t := Empty();
    if ToMap(t) != map[] {
      var k :| k in ToMap(t);
      LookupIsMap(t, k);
    }
    WellFormedDistinct(t);
  }

  lemma SetKeepsWellFormed(t: Chains, k: bytes, v: bytes)
    requires WellFormed(t)
    ensures WellFormed(Set(t, k, v))
  {
    hide BucketOf, SetIn, DistinctKeys;
    SetInKeeps(t[BucketOf(k)], k, v);
  }

  lemma LookupAfterSet(t: Chains, k: bytes, v: bytes, x: bytes)
    requires WellFormed(t)
    ensures Lookup(Set(t, k, v), x) == if x == k then Some(v) else Lookup(t, x)
  {
    hide BucketOf, SetIn, LookupIn, DistinctKeys;
    SetInKeeps(t[BucketOf(k)], k, v);
  }

  /** Storing refines map update. */
  lemma SetRefines(t: Chains, k: bytes, v: bytes)
    requires WellFormed(t)
    ensures WellFormed(Set(t, k, v)) && ToMap(Set(t, k, v)) == ToMap(t)[k := v]
  {
    hide WellFormed, ToMap, Lookup, Set;
    SetKeepsWellFormed(t, k, v);
    var m, m' := ToMap(t), ToMap(Set(t, k, v));
    forall x ensures (x in m' <==> x in m[k := v]) && (x in m' ==> m'[x] == m[k := v][x]) {
      LookupAfterSet(t, k, v, x);
      LookupIsMap(t, x);
      LookupIsMap(Set(t, k, v), x);
    }
  }

  lemma DelKeepsWellFormed(t: Chains, k: bytes)
    requires WellFormed(t)
    ensures WellFormed(Del(t, k))
  {
    hide BucketOf, DelIn, DistinctKeys;
    DelInKeeps(t[BucketOf(k)], k);
  }

  lemma LookupAfterDel(t: Chains, k: bytes, x: bytes)
    requires WellFormed(t)
    ensures Lookup(Del(t, k), x) == if x == k then None else Lookup(t, x)
  {
    hide BucketOf, DelIn, LookupIn, DistinctKeys;
    DelInKeeps(t[BucketOf(k)], k);
  }

  /** Deleting refines map removal. */
  lemma DelRefines(t: Chains, k: bytes)
    requires WellFormed(t)
    ensures WellFormed(Del(t, k)) && ToMap(Del(t, k)) == ToMap(t) - {k}
  {
    hide WellFormed, ToMap, Lookup, Del;
    DelKeepsWellFormed(t, k);
    var m, m' := ToMap(t), ToMap(Del(t, k));
    forall x ensures (x in m' <==> x in m - {k}) && (x in m' ==> m'[x] == (m - {k})[x]) {
      LookupAfterDel(t, k, x);
      LookupIsMap(t, x);
      LookupIsMap(Del(t, k), x);
    }
  }

  /** The entry count moves by one exactly when a key is new, or was there to delete. */
  lemma CountMoves(t: Chains, k: bytes, v: bytes)
    requires WellFormed(t)
    ensures |Entries(Set(t, k, v))| == |Entries(t)| + if Lookup(t, k).None? then 1 else 0
    ensures |Entries(Del(t, k))| == |Entries(t)| - if Lookup(t, k).None? then 0 else 1
  {
    hide WellFormed, ToMap, Entries, Lookup, Set, Del;
    SetRefines(t, k, v);
    DelRefines(t, k);
    LookupIsMap(t, k);
    WellFormedDistinct(t);
    WellFormedDistinct(Set(t, k, v));
    WellFormedDistinct(Del(t, k));
    var m := ToMap(t);
    assert (m - {k}).Keys == m.Keys - {k};
    assert m[k := v].Keys == m.Keys + {k};
  }

  // ---- The order of a scan ------------------------------------------------

  lemma {:induction false} EntriesSplit(t: Chains, b: nat)
    requires b < |t|
    ensures Entries(t) == Entries(t[..b]) + t[b] + Entries(t[b + 1..])
    decreases b
  {
    if b == 0 {
      assert t[..0] == [] && Entries(t[..0]) + t[0] == t[0];
    } else {
      EntriesSplit(t[1..], b - 1);
      assert t[1..][..b - 1] == t[..b][1..] && t[1..][b..] == t[b + 1..];
      Associative(t[0], Entries(t[..b][1..]), t[b]);
      Associative(t[0], Entries(t[..b][1..]) + t[b], Entries(t[b + 1..]));
    }
  }

  /** A new key is met before the others of its bucket, and nothing else moves; a key that is stored
      again keeps its place. */
  lemma NewestFirst(t: Chains, k: bytes, v: bytes)
    requires |t| == BUCKETS
    ensures var b := BucketOf(k); var rest := t[b] + Entries(t[b + 1..]);
            Lookup(t, k).None? ==> Entries(Set(t, k, v)) == Entries(t[..b]) + ([Entry(k, v)] + rest)
    ensures Lookup(t, k).Some? ==>
              && |Entries(Set(t, k, v))| == |Entries(t)|
              && forall i :: 0 <= i < |Entries(t)| ==> Entries(Set(t, k, v))[i].key == Entries(t)[i].key
  {
    hide BucketOf, Entries, Find;
    var b, t' := BucketOf(k), Set(t, k, v);
    EntriesSplit(t, b);
    EntriesSplit(t', b);
    assert t'[..b] == t[..b] && t'[b + 1..] == t[b + 1..];
    if Lookup(t, k).None? {
      Associative([Entry(k, v)], t[b], Entries(t[b + 1..]));
      Associative(Entries(t[..b]), [Entry(k, v)] + t[b], Entries(t[b + 1..]));
    } else {
      assert forall i :: 0 <= i < |t[b]| ==> t'[b][i].key == t[b][i].key;
    }
  }

  /** A deletion takes one entry out of the scan and keeps the order of the others. */
  lemma DelKeepsOrder(t: Chains, k: bytes) returns (i: nat)
    requires |t| == BUCKETS && Lookup(t, k).Some?
    ensures i < |Entries(t)| && Entries(t)[i].key == k
    ensures Entries(Del(t, k)) == Entries(t)[..i] + Entries(t)[i + 1..]
  {
    hide BucketOf, Entries, Find;
    var b, t' := BucketOf(k), Del(t, k);
    EntriesSplit(t, b);
    EntriesSplit(t', b);
    assert t'[..b] == t[..b] && t'[b + 1..] == t[b + 1..];
    i := |Entries(t[..b])| + Find(t[b], k);
  }

  // ---- Whole histories ----------------------------------------------------

  /** One mutation of the table; a refused allocation leaves it alone. */
  datatype Op = Put(key: bytes, val: bytes, granted: bool) | Remove(key: bytes) | Clear

  function After(t: Chains, ops: seq<Op>): Chains
    requires |t| == BUCKETS
    decreases |ops|
  {
    if ops == [] then t
    else
      var t1 := match ops[0]
        case Put(k, v, granted) => if granted then Set(t, k, v) else t
        case Remove(k) => Del(t, k)
        case Clear => Empty();
      After(t1, ops[1..])
  }

  function AfterOnMap(m: map<bytes, bytes>, ops: seq<Op>): map<bytes, bytes>
    decreases |ops|
  {
    if ops == [] then m
    else
      var m1 := match ops[0]
        case Put(k, v, granted) => if granted then m[k := v] else m
        case Remove(k) => m - {k}
        case Clear => map[];
      AfterOnMap(m1, ops[1..])
  }

  lemma {:induction false} HistoryRefines(t: Chains, ops: seq<Op>)
    requires WellFormed(t)
    ensures WellFormed(After(t, ops)) && ToMap(After(t, ops)) == AfterOnMap(ToMap(t), ops)
    decreases |ops|
  {
    hide WellFormed, ToMap, Set, Del, Empty;
    if ops == [] {
    } else {
      match ops[0] {
        case Put(k, v, granted) =>
          SetRefines(t, k, v);
          HistoryRefines(if granted then Set(t, k, v) else t, ops[1..]);
        case Remove(k) =>
          DelRefines(t, k);
          HistoryRefines(Del(t, k), ops[1..]);
        case Clear =>
          EmptyIsEmpty();
          HistoryRefines(Empty(), ops[1..]);
      }
    }
  }

  /** After any history from the empty table: every entry is in the bucket of its hash and no key
      occurs twice, a lookup answers what the map does, the entries counted are as many as the map's
      keys, and a scan meets each pair of the map, at one place only, and nothing else. */
  lemma TableIsMap(ops: seq<Op>)
    ensures var t, m := After(Empty(), ops), AfterOnMap(map[], ops);
            && WellFormed(t) && ToMap(t) == m && |Entries(t)| == |m| && DistinctKeys(Entries(t))
            && (forall k :: Lookup(t, k) == if k in m then Some(m[k]) else None)
            && (forall e :: e in Entries(t) <==> e.key in m && m[e.key] == e.val)
  {
    hide BucketOf, Empty, Set, Del, Lookup;
    EmptyIsEmpty();
    HistoryRefines(Empty(), ops);
    var t, m := After(Empty(), ops), AfterOnMap(map[], ops);
    WellFormedDistinct(t);
    MapOfMeaning(Entries(t));
    forall k ensures Lookup(t, k) == if k in m then Some(m[k]) else None {
      LookupIsMap(t, k);
    }
    forall e ensures e in Entries(t) <==> e.key in m && m[e.key] == e.val {
      MapOfKeys(Entries(t), e.key);
    }
  }
}
