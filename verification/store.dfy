/**
 * The node store behind an agent's memory (storage/index.py), seen as an ordered table from node
 * id to node. Embedding, vector search and persistence are not modelled; a node's metadata keeps
 * only what the bookkeeping reads, with its time stamps already parsed to instants (seconds).
 */
module NodeStore {
  import opened Wrappers
  import opened Strings

  /** The metadata of a memory node: its kind, the fields of its event, its poignancy and its
      creation, expiry and last-access instants. */
  datatype Meta = Meta(nodeType: string, subject: string, pred: string, obj: string, address: string,
                       poignancy: int, create: int, expire: int, access: int)

  datatype Node = Node(id: string, text: string, meta: Meta)

  /** `docs` in insertion order, and `_config["max_nodes"]`. */
  datatype Store = Store(docs: seq<Node>, counter: nat)

  function Ids(docs: seq<Node>): (r: seq<string>)
    ensures |r| == |docs| && forall i :: 0 <= i < |docs| ==> r[i] == docs[i].id
  {
    if docs == [] then [] else [docs[0].id] + Ids(docs[1..])
  }

  predicate HasNode(s: Store, id: string)
  {
    id in Ids(s.docs)
  }

  predicate DistinctIds(docs: seq<Node>)
  {
    forall i, j :: 0 <= i < j < |docs| ==> docs[i].id != docs[j].id
  }

  /** The id `add_node` makes up from the counter. */
  function GeneratedId(n: nat): string
  {
    "node_" + NatStr(n)
  }

  lemma GeneratedIdInjective(a: nat, b: nat)
    requires GeneratedId(a) == GeneratedId(b)
    ensures a == b
  {
    assert NatStr(a) == GeneratedId(a)[5..];
    NatStrInjective(a, b);
  }

  /** Inserting a node whose id is already stored replaces it in place; a new id goes last. */
  function Upsert(docs: seq<Node>, n: Node): (r: seq<Node>)
    ensures n in r
    ensures forall m :: m in r ==> m in docs || m == n
    ensures forall m :: m in docs && m.id != n.id ==> m in r
    ensures n.id in Ids(docs) ==> |r| == |docs|
    ensures n.id !in Ids(docs) ==> r == docs + [n]
  {
    if docs == [] then [n]
    else if docs[0].id == n.id then [n] + docs[1..]
    else
      var rest := Upsert(docs[1..], n);
      UpsertBehind(docs, n, rest);
      [docs[0]] + rest
  }

  /** A node with another id in front of an `Upsert` keeps the `Upsert`'s promises. */
  lemma UpsertBehind(docs: seq<Node>, n: Node, rest: seq<Node>)
    requires docs != [] && docs[0].id != n.id
    requires n in rest
    requires forall m :: m in rest ==> m in docs[1..] || m == n
    requires forall m :: m in docs[1..] && m.id != n.id ==> m in rest
    requires n.id in Ids(docs[1..]) ==> |rest| == |docs[1..]|
    requires n.id !in Ids(docs[1..]) ==> rest == docs[1..] + [n]
    ensures n in [docs[0]] + rest
    ensures forall m :: m in [docs[0]] + rest ==> m in docs || m == n
    ensures forall m :: m in docs && m.id != n.id ==> m in [docs[0]] + rest
    ensures n.id in Ids(docs) ==> |[docs[0]] + rest| == |docs|
    ensures n.id !in Ids(docs) ==> [docs[0]] + rest == docs + [n]
  {
    assert docs == [docs[0]] + docs[1..];
    assert Ids(docs) == [docs[0].id] + Ids(docs[1..]);
  }

  /** `add_node(text, metadata, id=id)`: a missing or empty id is "node_" and the counter; the
      counter goes up by one whether or not an id was given. Returns the store and the node. */
  function AddNode(s: Store, text: string, meta: Meta, id: string): (r: (Store, Node))
    ensures r.0.counter == s.counter + 1
    ensures r.1.id == (if id == "" then GeneratedId(s.counter) else id)
    ensures r.1.text == text && r.1.meta == meta
    ensures r.1 in r.0.docs
    ensures forall m :: m in r.0.docs ==> m in s.docs || m == r.1
  {
    var n := Node(if id == "" then GeneratedId(s.counter) else id, text, meta);
    (Store(Upsert(s.docs, n), s.counter + 1), n)
  }

  /** Every generated id that is stored was generated before: it names a counter value below the
      current one. */
  ghost predicate Fresh(s: Store)
  {
    forall i, k: nat :: 0 <= i < |s.docs| && s.docs[i].id == GeneratedId(k) ==> k < s.counter
  }

  /** While stored ids respect the counter, an id the store generates is not yet in use, and
      generating it keeps the ids distinct. */
  lemma GeneratedIdIsNew(s: Store, text: string, meta: Meta)
    requires Fresh(s) && DistinctIds(s.docs)
    ensures !HasNode(s, GeneratedId(s.counter))
    ensures var r := AddNode(s, text, meta, "").0;
            Fresh(r) && DistinctIds(r.docs) && |r.docs| == |s.docs| + 1
  {
    forall i | 0 <= i < |s.docs| ensures Ids(s.docs)[i] != GeneratedId(s.counter) {
      assert s.docs[i].id == GeneratedId(s.counter) ==> s.counter < s.counter;
    }
    var r := AddNode(s, text, meta, "").0;
    assert r.docs == s.docs + [AddNode(s, text, meta, "").1];
    forall i, k: nat | 0 <= i < |r.docs| && r.docs[i].id == GeneratedId(k) ensures k < r.counter {
      if i == |s.docs| {
        GeneratedIdInjective(k, s.counter);
      }
    }
  }

  /** `remove_nodes(ids)`: the stored nodes whose id is listed are dropped; the others keep their
      order. */
  function RemoveNodes(s: Store, ids: seq<string>): (r: Store)
    ensures r.counter == s.counter
    ensures forall n :: n in r.docs <==> n in s.docs && n.id !in ids
  {
    Store(Keep(s.docs, ids), s.counter)
  }

  function Keep(docs: seq<Node>, ids: seq<string>): (r: seq<Node>)
    ensures forall n :: n in r <==> n in docs && n.id !in ids
    ensures |r| <= |docs|
  {
    if docs == [] then []
    else if docs[0].id in ids then Keep(docs[1..], ids)
    else [docs[0]] + Keep(docs[1..], ids)
  }

  /** A node is out of date at `now` when it was created later or expired earlier. */
  predicate Stale(n: Node, now: int)
  {
    n.meta.create > now || n.meta.expire < now
  }

  /** The ids of the stale nodes, in store order. */
  function StaleIds(docs: seq<Node>, now: int): (r: seq<string>)
    ensures forall id :: id in r ==> exists n :: n in docs && Stale(n, now) && n.id == id
    ensures forall n :: n in docs && Stale(n, now) ==> n.id in r
  {
    if docs == [] then []
    else if Stale(docs[0], now) then [docs[0].id] + StaleIds(docs[1..], now)
    else StaleIds(docs[1..], now)
  }

  /** `cleanup()` at `now`: removes the stale nodes and returns their ids. */
  function Cleanup(s: Store, now: int): (r: (Store, seq<string>))
  {
    var ids := StaleIds(s.docs, now);
    (RemoveNodes(s, ids), ids)
  }

  /** Cleanup removes exactly the stale nodes (when ids are distinct), reports each of them, and
      afterwards nothing stored is stale. */
  lemma CleanupExact(s: Store, now: int)
    requires DistinctIds(s.docs)
    ensures var (r, ids) := Cleanup(s, now);
            (forall n :: n in r.docs <==> n in s.docs && !Stale(n, now)) &&
            (forall id :: id in ids <==> exists n :: n in s.docs && Stale(n, now) && n.id == id) &&
            r.counter == s.counter
  {
    StaleIdsExact(s.docs, now);
  }

  /** With distinct ids, a stored node's id is reported exactly when the node is stale. */
  lemma {:induction false} StaleIdsExact(docs: seq<Node>, now: int)
    requires DistinctIds(docs)
    ensures forall n :: n in docs ==> (n.id in StaleIds(docs, now) <==> Stale(n, now))
  {
    if docs != [] {
      var rest := docs[1..];
      DistinctTail(docs);
      StaleIdsExact(rest, now);
      StaleIdsStored(rest, now);
      assert forall j :: 0 <= j < |rest| ==> rest[j] == docs[j + 1];
      assert docs[0].id !in Ids(rest);
    }
  }

  lemma {:induction false} StaleIdsStored(docs: seq<Node>, now: int)
    ensures forall id :: id in StaleIds(docs, now) ==> id in Ids(docs)
  {
    if docs != [] {
      StaleIdsStored(docs[1..], now);
      assert Ids(docs) == [docs[0].id] + Ids(docs[1..]);
    }
  }

  lemma DistinctTail(docs: seq<Node>)
    requires DistinctIds(docs) && docs != []
    ensures DistinctIds(docs[1..])
    ensures forall n :: n in docs[1..] ==> n.id != docs[0].id
  {
    var rest := docs[1..];
    forall i, j | 0 <= i < j < |rest| ensures rest[i].id != rest[j].id {
      assert rest[i] == docs[i + 1] && rest[j] == docs[j + 1];
    }
    forall n | n in rest ensures n.id != docs[0].id {
      var j :| 0 <= j < |rest| && rest[j] == n;
      assert docs[j + 1] == n;
    }
  }

  /** A second cleanup at the same instant finds nothing and changes nothing. */
  lemma CleanupIdempotent(s: Store, now: int)
    ensures var r := Cleanup(s, now).0;
            Cleanup(r, now) == (r, [])
  {
    var r := Cleanup(s, now).0;
    NoStaleIds(r.docs, now);
    KeepNothing(r.docs, []);
  }

  lemma {:induction false} NoStaleIds(docs: seq<Node>, now: int)
    requires forall n :: n in docs ==> !Stale(n, now)
    ensures StaleIds(docs, now) == []
  {
    if docs != [] {
      assert docs[0] in docs;
      NoStaleIds(docs[1..], now);
    }
  }

  lemma {:induction false} KeepNothing(docs: seq<Node>, ids: seq<string>)
    requires ids == []
    ensures Keep(docs, ids) == docs
  {
    if docs != [] {
      KeepNothing(docs[1..], ids);
    }
  }

  /** `nodes_num`. */
  function NodesNum(s: Store): nat
  {
    |s.docs|
  }

  /** With distinct ids the count is the number of different ids stored. */
  lemma {:induction false} NodesNumCountsIds(docs: seq<Node>)
    requires DistinctIds(docs)
    ensures NodesNum(Store(docs, 0)) == |set n | n in docs :: n.id|
  {
    if docs != [] {
      var rest := docs[1..];
      DistinctTail(docs);
      NodesNumCountsIds(rest);
      var all := set n | n in docs :: n.id;
      var tail := set n | n in rest :: n.id;
      assert docs[0].id !in tail;
      assert all == {docs[0].id} + tail by {
        forall x | x in all ensures x in {docs[0].id} + tail {
          var n :| n in docs && n.id == x;
          if n != docs[0] {
            var j :| 0 <= j < |docs| && docs[j] == n;
            assert rest[j - 1] == n;
          }
        }
      }
    }
  }
}
