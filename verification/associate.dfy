/**
 * An agent's associative memory (memory/associate.py): concepts stored as nodes of the node
 * store, and one most-recent-first list of node ids per kind of memory ("event", "thought",
 * "chat"). The vector search is a parameter: it maps a query text and the candidate ids to the
 * ranked nodes it finds.
 */
module Associative {
  import opened Wrappers
  import opened Strings
  import opened Dicts
  import opened Events
  import opened NodeStore
  import Ranking

  /** Thirty days, in seconds: the default lifetime of a memory. */
  const Lifetime: int := 30 * 86400

  datatype Concept = Concept(id: string, nodeType: string, event: Event, poignancy: int,
                             create: int, expire: int, access: int)

  /** `Concept(describe, node_id, node_type, ..., create, expire, access)`: the address arrives
      ':'-joined; a missing creation instant is the clock's `now`, a missing expiry is thirty days
      after creation, a missing access is the creation. */
  function NewConcept(describe: string, id: string, nodeType: string, subject: string, pred: string,
                      obj: string, address: string, poignancy: int,
                      create: Option<int>, expire: Option<int>, access: Option<int>, now: int): (c: Concept)
    ensures c.id == id && c.nodeType == nodeType && c.poignancy == poignancy
    ensures c.event == NewEvent(subject, pred, obj, Split(address, ':'), describe, "")
  {
    var cr := create.GetOr(now);
    Concept(id, nodeType, NewEvent(subject, pred, obj, Split(address, ':'), describe, ""), poignancy,
            cr, expire.GetOr(cr + Lifetime), access.GetOr(cr))
  }

  /** Left unspecified, a concept is created now, expires in thirty days and was last accessed when
      created; given values are kept. */
  lemma ConceptDefaults(describe: string, id: string, nodeType: string, subject: string, pred: string,
                        obj: string, address: string, poignancy: int,
                        create: Option<int>, expire: Option<int>, access: Option<int>, now: int)
    ensures var c := NewConcept(describe, id, nodeType, subject, pred, obj, address, poignancy, create, expire, access, now);
            c.create == (if create.Some? then create.value else now) &&
            c.expire == (if expire.Some? then expire.value else c.create + 30 * 86400) &&
            c.access == (if access.Some? then access.value else c.create)
  {
  }

  /** `Concept.from_node(node)`: the node's text is the description, its metadata the rest. */
  function FromNode(n: Node, now: int): (c: Concept)
    ensures c.id == n.id && c.create == n.meta.create && c.expire == n.meta.expire && c.access == n.meta.access
  {
    NewConcept(n.text, n.id, n.meta.nodeType, n.meta.subject, n.meta.pred, n.meta.obj, n.meta.address,
               n.meta.poignancy, Some(n.meta.create), Some(n.meta.expire), Some(n.meta.access), now)
  }

  /** The id lists, by kind, in the dictionary's order. */
  type Lists = seq<(string, seq<string>)>

  datatype Assoc = Assoc(store: Store, memory: Lists, retention: int, maxMemory: int)

  /** The list without the removed ids, survivors in order. */
  function Without(xs: seq<string>, removed: seq<string>): (r: seq<string>)
    ensures forall x :: x in r <==> x in xs && x !in removed
    ensures |r| <= |xs|
  {
    if xs == [] then []
    else if xs[0] in removed then Without(xs[1..], removed)
    else [xs[0]] + Without(xs[1..], removed)
  }

  /** Nothing to remove leaves a list as it is. */
  lemma {:induction false} WithoutNothing(xs: seq<string>, removed: seq<string>)
    requires forall x :: x in xs ==> x !in removed
    ensures Without(xs, removed) == xs
  {
    if xs != [] {
      assert xs[0] in xs;
      WithoutNothing(xs[1..], removed);
    }
  }

  /** Removal keeps the relative order: removing from a concatenation removes from each part. */
  lemma {:induction false} WithoutSplits(xs: seq<string>, ys: seq<string>, removed: seq<string>)
    ensures Without(xs + ys, removed) == Without(xs, removed) + Without(ys, removed)
  {
    if xs != [] {
      WithoutSplits(xs[1..], ys, removed);
      var zs := xs + ys;
      assert zs[0] == xs[0] && zs[1..] == xs[1..] + ys;
      if xs[0] in removed {
        assert Without(zs, removed) == Without(zs[1..], removed);
      } else {
        assert Without(zs, removed) == [xs[0]] + Without(zs[1..], removed);
      }
    } else {
      assert xs + ys == ys;
    }
  }

  function WithoutAll(mem: Lists, removed: seq<string>): (r: Lists)
    ensures |r| == |mem|
    ensures forall i :: 0 <= i < |mem| ==> r[i] == (mem[i].0, Without(mem[i].1, removed))
  {
    if mem == [] then [] else [(mem[0].0, Without(mem[0].1, removed))] + WithoutAll(mem[1..], removed)
  }

  /** `cleanup_index()` at `now`: the store drops its stale nodes, and every list drops their
      ids. */
  function CleanupIndex(a: Assoc, now: int): (r: Assoc)
    ensures r.store == Cleanup(a.store, now).0
    ensures Keys(r.memory) == Keys(a.memory)
  {
    var (s, removed) := Cleanup(a.store, now);
    a.(store := s, memory := WithoutAll(a.memory, removed))
  }

  /** After cleanup each kind keeps its list minus the ids of stale nodes, in the same order. */
  lemma CleanupIndexLists(a: Assoc, now: int, k: string)
    requires HasKey(a.memory, k)
    ensures var removed := Cleanup(a.store, now).1;
            Lookup(CleanupIndex(a, now).memory, k) == Some(Without(Lookup(a.memory, k).value, removed))
  {
    LookupWithoutAll(a.memory, Cleanup(a.store, now).1, k);
  }

  lemma {:induction false} LookupWithoutAll(mem: Lists, removed: seq<string>, k: string)
    requires HasKey(mem, k)
    ensures Lookup(WithoutAll(mem, removed), k) == Some(Without(Lookup(mem, k).value, removed))
  {
    if mem[0].0 != k {
      var i :| 0 <= i < |mem| && mem[i].0 == k;
      assert mem[1..][i - 1].0 == k;
      LookupWithoutAll(mem[1..], removed, k);
      assert WithoutAll(mem, removed)[1..] == WithoutAll(mem[1..], removed);
    }
  }

  /** The metadata `add_node` stores: access starts at creation. */
  function NodeMeta(nodeType: string, e: Event, poignancy: int, create: int, expire: int): (m: Meta)
    ensures m.access == m.create && m.create == create && m.expire == expire
  {
    Meta(nodeType, e.subject, e.pred, e.obj, Join(e.address, ":"), poignancy, create, expire, create)
  }

  /** Whether adding to a list of the given length triggers eviction: `len >= max_memory > 0`. */
  predicate Evicts(len: int, maxMemory: int)
  {
    len >= maxMemory > 0
  }

  /** The store with the node `add_node` inserts, and that node. */
  function Admit(a: Assoc, nodeType: string, e: Event, poignancy: int,
                 create: Option<int>, expire: Option<int>, now: int): (r: (Store, Node))
    ensures r.1.id == GeneratedId(a.store.counter) && r.1 in r.0.docs
    ensures forall x :: x in a.store.docs && x.id != r.1.id ==> x in r.0.docs
  {
    var cr := create.GetOr(now);
    NodeStore.AddNode(a.store, GetDescribe(e, true), NodeMeta(nodeType, e, poignancy, cr, expire.GetOr(cr + Lifetime)), "")
  }

  /** The list with the new id in front, cut when it has reached the bound, and the store without
      the ids cut off past position `max_memory - 1`. */
  function Enlist(a: Assoc, s: Store, nodeType: string, mem: seq<string>): Assoc
  {
    if Evicts(|mem|, a.maxMemory) then
      a.(store := RemoveNodes(s, mem[a.maxMemory..]), memory := Put(a.memory, nodeType, mem[..a.maxMemory - 1]))
    else
      a.(store := s, memory := Put(a.memory, nodeType, mem))
  }

  /** `add_node(node_type, event, poignancy, create, expire)` at `now`: the node goes into the
      store, its id to the front of its kind's list. When the list has reached `max_memory`
      (a positive bound), the ids from position `max_memory` on leave the store and the list keeps
      its first `max_memory - 1`. An unknown kind raises, which is `None`. */
  function AddNode(a: Assoc, nodeType: string, e: Event, poignancy: int,
                   create: Option<int>, expire: Option<int>, now: int): (r: Option<(Assoc, Concept)>)
    ensures r.Some? <==> HasKey(a.memory, nodeType)
  {
    var (s, node) := Admit(a, nodeType, e, poignancy, create, expire, now);
    match Lookup(a.memory, nodeType)
    case None => None
    case Some(listed) => Some((Enlist(a, s, nodeType, [node.id] + listed), FromNode(node, now)))
  }

  /** The new concept is stamped as accessed at its creation, with a generated id; the other kinds'
      lists do not change. */
  lemma AddNodeRecords(a: Assoc, nodeType: string, e: Event, poignancy: int,
                       create: Option<int>, expire: Option<int>, now: int, other: string)
    requires HasKey(a.memory, nodeType) && other != nodeType
    ensures var (r, c) := AddNode(a, nodeType, e, poignancy, create, expire, now).value;
            c.access == c.create && c.create == (if create.Some? then create.value else now) &&
            c.expire == (if expire.Some? then expire.value else c.create + Lifetime) &&
            c.id == GeneratedId(a.store.counter) &&
            Lookup(r.memory, other) == Lookup(a.memory, other)
  {
  }

  /** Below the bound (or with no positive bound) the new id is put in front of its list. */
  lemma AddNodeFront(a: Assoc, nodeType: string, e: Event, poignancy: int,
                     create: Option<int>, expire: Option<int>, now: int)
    requires HasKey(a.memory, nodeType)
    requires !Evicts(|Lookup(a.memory, nodeType).value| + 1, a.maxMemory)
    ensures var (r, c) := AddNode(a, nodeType, e, poignancy, create, expire, now).value;
            Lookup(r.memory, nodeType) == Some([c.id] + Lookup(a.memory, nodeType).value) &&
            r.store == NodeStore.AddNode(a.store, GetDescribe(e, true), NodeMeta(nodeType, e, poignancy, c.create, c.expire), "").0
  {
  }

  /** At the bound the list is cut to its newest `max_memory - 1` ids, and exactly the ids from
      position `max_memory` on leave the store. */
  lemma AddNodeEvicts(a: Assoc, nodeType: string, e: Event, poignancy: int,
                      create: Option<int>, expire: Option<int>, now: int)
    requires HasKey(a.memory, nodeType)
    requires Evicts(|Lookup(a.memory, nodeType).value| + 1, a.maxMemory)
    ensures var (r, c) := AddNode(a, nodeType, e, poignancy, create, expire, now).value;
            var mem := [c.id] + Lookup(a.memory, nodeType).value;
            var s := NodeStore.AddNode(a.store, GetDescribe(e, true), NodeMeta(nodeType, e, poignancy, c.create, c.expire), "").0;
            Lookup(r.memory, nodeType) == Some(mem[..a.maxMemory - 1]) &&
            (forall n :: n in r.store.docs <==> n in s.docs && n.id !in mem[a.maxMemory..])
  {
  }

  /** Distinct ids, written as a predicate so that lists of ids can be reasoned about by name. */
  predicate Distinct(xs: seq<string>)
  {
    forall i, j :: 0 <= i < j < |xs| ==> xs[i] != xs[j]
  }

  /** In a list of distinct ids the one at position k occurs neither before nor after it. */
  lemma DistinctAt(xs: seq<string>, k: nat)
    requires Distinct(xs) && k < |xs|
    ensures xs[k] !in xs[..k] && xs[k] !in xs[k + 1..]
  {
    forall x | x in xs[..k] ensures x != xs[k] {
      var j :| 0 <= j < k && xs[..k][j] == x;
      assert xs[j] == x;
    }
    var after := xs[k + 1..];
    forall x | x in after ensures x != xs[k] {
      var j :| 0 <= j < |after| && after[j] == x;
      assert xs[k + 1 + j] == x;
    }
  }

  lemma DistinctCons(x: string, xs: seq<string>)
    requires Distinct(xs) && x !in xs
    ensures Distinct([x] + xs)
  {
    var ys := [x] + xs;
    forall i, j | 0 <= i < j < |ys| ensures ys[i] != ys[j] {
      assert ys[j] == xs[j - 1];
      if i > 0 {
        assert ys[i] == xs[i - 1];
      }
    }
  }

  /** The id at position `max_memory - 1` is cut from the list but never removed from the store:
      when the list's ids are distinct it stays stored while no list of its kind names it. */
  lemma EvictionOrphan(a: Assoc, nodeType: string, e: Event, poignancy: int,
                       create: Option<int>, expire: Option<int>, now: int)
    requires HasKey(a.memory, nodeType)
    requires Evicts(|Lookup(a.memory, nodeType).value| + 1, a.maxMemory)
    requires var listed := Lookup(a.memory, nodeType).value;
             Distinct(listed) && GeneratedId(a.store.counter) !in listed &&
             (a.maxMemory >= 2 ==> HasNode(a.store, listed[a.maxMemory - 2]))
    ensures var (r, c) := AddNode(a, nodeType, e, poignancy, create, expire, now).value;
            var orphan := ([c.id] + Lookup(a.memory, nodeType).value)[a.maxMemory - 1];
            HasNode(r.store, orphan) && orphan !in Lookup(r.memory, nodeType).value
  {
    var (s, node) := Admit(a, nodeType, e, poignancy, create, expire, now);
    OrphanSurvives(a.store, s, node, Lookup(a.memory, nodeType).value, a.maxMemory);
  }

  /** The orphan argument on the pieces: the store before and after the insertion, the new node,
      the old list and the bound. */
  lemma OrphanSurvives(before: Store, s: Store, node: Node, listed: seq<string>, max: int)
    requires forall x :: x in before.docs && x.id != node.id ==> x in s.docs
    requires node in s.docs
    requires 0 < max <= |listed| + 1
    requires Distinct(listed) && node.id !in listed
    requires max >= 2 ==> HasNode(before, listed[max - 2])
    ensures var mem := [node.id] + listed;
            HasNode(RemoveNodes(s, mem[max..]), mem[max - 1]) && mem[max - 1] !in mem[..max - 1]
  {
    var mem := [node.id] + listed;
    DistinctCons(node.id, listed);
    DistinctAt(mem, max - 1);
    var orphan := mem[max - 1];
    if max >= 2 {
      assert orphan == listed[max - 2];
    }
    var m := StoredNode(before, s, node, orphan);
    OrphanKept(s, mem[max..], m);
  }

  lemma OrphanKept(s: Store, removed: seq<string>, m: Node)
    requires m in s.docs && m.id !in removed
    ensures HasNode(RemoveNodes(s, removed), m.id)
  {
    var docs := RemoveNodes(s, removed).docs;
    var i := IndexOf(docs, m);
    assert Ids(docs)[i] == m.id;
  }

  /** The node that carries a stored id (or the new node) is still there after an insertion. */
  lemma StoredNode(before: Store, after: Store, node: Node, id: string) returns (m: Node)
    requires forall x :: x in before.docs && x.id != node.id ==> x in after.docs
    requires node in after.docs
    requires HasNode(before, id) || id == node.id
    ensures m in after.docs && m.id == id
  {
    if id == node.id {
      m := node;
    } else {
      var i :| 0 <= i < |before.docs| && Ids(before.docs)[i] == id;
      m := before.docs[i];
    }
  }

  function IndexOf(docs: seq<Node>, m: Node): (i: int)
    requires m in docs
    ensures 0 <= i < |docs| && docs[i] == m
  {
    if docs[0] == m then 0 else 1 + IndexOf(docs[1..], m)
  }

  /** `_retrieve_nodes(node_type, text)`: with a text, the first `retention` ids that the search
      over this kind's ids returns; without one, the first `retention` ids of the list, all of which
      must be stored (looking up a missing node raises). An unknown kind raises. */
  function RetrieveNodes(a: Assoc, nodeType: string, text: string,
                         search: (string, seq<string>) -> seq<string>): (r: Option<seq<string>>)
    ensures !HasKey(a.memory, nodeType) ==> r.None?
  {
    match Lookup(a.memory, nodeType)
    case None => None
    case Some(ids) =>
      if text != "" then Some(Ranking.TakePy(search(text, ids), a.retention))
      else if forall i :: 0 <= i < |ids| ==> HasNode(a.store, ids[i]) then Some(Ranking.TakePy(ids, a.retention))
      else None
  }

  /** Without a text the answer is the newest `retention` ids, in list order, and it fails exactly
      when some listed id is no longer stored. */
  lemma RetrieveNodesUntexted(a: Assoc, nodeType: string, search: (string, seq<string>) -> seq<string>)
    requires HasKey(a.memory, nodeType) && a.retention >= 0
    ensures var ids := Lookup(a.memory, nodeType).value;
            var r := RetrieveNodes(a, nodeType, "", search);
            (r.Some? <==> forall x :: x in ids ==> HasNode(a.store, x)) &&
            (r.Some? ==> r.value == ids[..if a.retention < |ids| then a.retention else |ids|])
  {
  }

  /** `retrieve_chats(name)`: with a name, the first `retention` ids the search for "对话 " and the
      name returns over the chat ids; without one, the newest `retention` chat ids in list order,
      failing exactly when one of them is no longer stored. No chat list raises. */
  function RetrieveChats(a: Assoc, name: string, search: (string, seq<string>) -> seq<string>): (r: Option<seq<string>>)
    ensures !HasKey(a.memory, "chat") ==> r.None?
    ensures HasKey(a.memory, "chat") && name != "" && a.retention >= 0 ==>
              var found := search("对话 " + name, Lookup(a.memory, "chat").value);
              r.Some? && r.value == found[..if a.retention < |found| then a.retention else |found|]
    ensures HasKey(a.memory, "chat") && name == "" && a.retention >= 0 ==>
              var ids := Lookup(a.memory, "chat").value;
              (r.Some? <==> forall x :: x in ids ==> HasNode(a.store, x)) &&
              (r.Some? ==> r.value == ids[..if a.retention < |ids| then a.retention else |ids|])
  {

    RetrieveNodes(a, "chat", if name == "" then "" else "对话 " + name, search)
  }

  /** Each node keyed by its id, in retrieval order. */
  function ById(ns: seq<Ranking.Cand>): (r: seq<(string, Ranking.Cand)>)
    ensures |r| == |ns| && forall i :: 0 <= i < |ns| ==> r[i] == (ns[i].id, ns[i])
  {
    seq(|ns|, i requires 0 <= i < |ns| => (ns[i].id, ns[i]))
  }

  /** The per-query results, one after the other. */
  function Flatten(results: seq<seq<Ranking.Cand>>): seq<Ranking.Cand>
  {
    if results == [] then [] else Flatten(results[..|results| - 1]) + results[|results| - 1]
  }

  function Values(d: seq<(string, Ranking.Cand)>): (r: seq<Ranking.Cand>)
    ensures |r| == |d| && forall i :: 0 <= i < |d| ==> r[i] == d[i].1
  {
    if d == [] then [] else [d[0].1] + Values(d[1..])
  }

  /** The answer of `retrieve_focus`: with `reduce_all`, one list of nodes; otherwise, the nodes per
      query text. */
  datatype Focus = Reduced(nodes: seq<Ranking.Cand>) | PerText(byText: seq<(string, seq<Ranking.Cand>)>)

  /** `retrieve_focus(focus, reduce_all)`: every focus text is searched over the event ids followed
      by the thought ids. A missing "event" or "thought" list raises. */
  function RetrieveFocus(a: Assoc, focus: seq<string>, reduceAll: bool,
                         search: (string, seq<string>) -> seq<Ranking.Cand>): (r: Option<Focus>)
    ensures r.Some? <==> HasKey(a.memory, "event") && HasKey(a.memory, "thought")
  {
    match (Lookup(a.memory, "event"), Lookup(a.memory, "thought"))
    case (Some(ev), Some(th)) =>
      var results := seq(|focus|, i requires 0 <= i < |focus| => search(focus[i], ev + th));
      if reduceAll then Some(Reduced(Values(FromPairs(ById(Flatten(results))))))
      else Some(PerText(ByText(focus, results)))
    case _ => None
  }

  /** `retrieved[text] = nodes` for every text in turn. */
  function ByText(focus: seq<string>, results: seq<seq<Ranking.Cand>>): (r: seq<(string, seq<Ranking.Cand>)>)
    requires |results| == |focus|
    ensures forall t :: HasKey(r, t) <==> t in focus
    ensures forall i :: 0 <= i < |focus| && focus[i] !in focus[i + 1..] ==> Lookup(r, focus[i]) == Some(results[i])
  {
    if focus == [] then []
    else
      var n := |focus| - 1;
      var prev := ByText(focus[..n], results[..n]);
      ByTextStep(focus, results, prev);
      Put(prev, focus[n], results[n])
  }

  /** Storing the last text's nodes over the answer for the texts before it keeps `ByText`'s
      promises. */
  lemma ByTextStep(focus: seq<string>, results: seq<seq<Ranking.Cand>>, prev: seq<(string, seq<Ranking.Cand>)>)
    requires |results| == |focus| > 0
    requires forall t :: HasKey(prev, t) <==> t in focus[..|focus| - 1]
    requires var f, rs := focus[..|focus| - 1], results[..|focus| - 1];
             forall i :: 0 <= i < |f| && f[i] !in f[i + 1..] ==> Lookup(prev, f[i]) == Some(rs[i])
    ensures var r := Put(prev, focus[|focus| - 1], results[|focus| - 1]);
            (forall t :: HasKey(r, t) <==> t in focus) &&
            (forall i :: 0 <= i < |focus| && focus[i] !in focus[i + 1..] ==> Lookup(r, focus[i]) == Some(results[i]))
  {
    var n := |focus| - 1;
    var r := Put(prev, focus[n], results[n]);
    assert forall t :: t in focus <==> t in focus[..n] || t == focus[n];
    assert forall t :: HasKey(r, t) <==> Lookup(r, t).Some?;
    forall i | 0 <= i < n && focus[i] !in focus[i + 1..]
      ensures Lookup(r, focus[i]) == Some(results[i])
    {
      assert focus[n] in focus[i + 1..];
      assert focus[..n][i + 1..] <= focus[i + 1..];
      assert focus[..n][i] == focus[i] && results[..n][i] == results[i];
    }
  }

  /** With `reduce_all` the answer has one node per retrieved id, the last one retrieved under that
      id, and nothing else. */
  lemma RetrieveFocusDedups(a: Assoc, focus: seq<string>, search: (string, seq<string>) -> seq<Ranking.Cand>, id: string)
    requires HasKey(a.memory, "event") && HasKey(a.memory, "thought")
    ensures var ev := Lookup(a.memory, "event").value;
            var th := Lookup(a.memory, "thought").value;
            var all := Flatten(seq(|focus|, i requires 0 <= i < |focus| => search(focus[i], ev + th)));
            var d := FromPairs(ById(all));
            var j := LastKeyed(ById(all), id);
            RetrieveFocus(a, focus, true, search) == Some(Reduced(Values(d))) &&
            DistinctKeys(d) &&
            Lookup(d, id) == (if j >= 0 then Some(all[j]) else None)
  {
    var ev := Lookup(a.memory, "event").value;
    var th := Lookup(a.memory, "thought").value;
    FromPairsLastWins(ById(Flatten(seq(|focus|, i requires 0 <= i < |focus| => search(focus[i], ev + th)))), id);
  }
}
