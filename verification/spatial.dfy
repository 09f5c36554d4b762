/**
 * An agent's spatial knowledge (memory/spatial.py): a tree of place names whose inner nodes are
 * dictionaries (kept in insertion order) and whose last level is a list of object names, plus a
 * table of named aliases mapping a keyword to a full address.
 */
module Spatial {
  import opened Wrappers
  import opened Strings
  import opened Dicts

  datatype Tree = Dir(entries: seq<(string, Tree)>) | Items(leaves: seq<string>)

  /** `add_leaf(address)`: walks the dictionaries along all but the last two names, creating empty
      ones where missing; at the second-to-last name it appends the last name to the list there
      unless present. Addresses shorter than 2 are ignored. The source raises where it would call a
      dictionary method on a list or `append` on a dictionary; that is `None` here. */
  function AddLeaf(t: Tree, addr: seq<string>): (r: Option<Tree>)
    ensures |addr| < 2 ==> r == Some(t)
    ensures r.Some? && |addr| >= 2 ==> t.Dir? && r.value.Dir?
    decreases |addr|
  {
    if |addr| < 2 then Some(t)
    else match t
      case Items(_) => None
      case Dir(es) =>
        if |addr| == 2 then
          match Lookup<string, Tree>(es, addr[0])
          case None => Some(Dir(Put(es, addr[0], Items([addr[1]]))))
          case Some(Items(ls)) =>
            if addr[1] in ls then Some(t) else Some(Dir(Put(es, addr[0], Items(ls + [addr[1]]))))
          case Some(Dir(cs)) => if HasKey(cs, addr[1]) then Some(t) else None
        else
          var child := Lookup(es, addr[0]).GetOr(Dir([]));
          match AddLeaf(child, addr[1..])
          case None => None
          case Some(c) => Some(Dir(Put(es, addr[0], c)))
  }

  /** `get_leaves(address)`: the keys or the list at the end of the path, `[]` as soon as a name is
      missing. Indexing a list by a name it contains raises, which is `None`. */
  function GetLeaves(t: Tree, addr: seq<string>): (r: Option<seq<string>>)
    ensures addr == [] && t.Items? ==> r == Some(t.leaves)
    ensures addr == [] && t.Dir? ==> r.Some? && forall k :: k in r.value <==> HasKey(t.entries, k)
    ensures addr != [] && t.Dir? && !HasKey(t.entries, addr[0]) ==> r == Some([])
    decreases |addr|
  {
    if addr == [] then
      match t
      case Dir(es) => KeysListed(es, ""); Some(Keys(es))
      case Items(ls) => Some(ls)
    else
      match t
      case Dir(es) =>
        (match Lookup<string, Tree>(es, addr[0])
         case None => Some([])
         case Some(c) => GetLeaves(c, addr[1..]))
      case Items(ls) => if addr[0] in ls then None else Some([])
  }

  /** Every list in the tree is free of repeats. */
  predicate NoRepeats(t: Tree)
  {
    match t
    case Items(ls) => forall i, j :: 0 <= i < j < |ls| ==> ls[i] != ls[j]
    case Dir(es) => forall i :: 0 <= i < |es| ==> NoRepeats(es[i].1)
  }

  /** A successful `add_leaf` makes the last name appear at the path of the others. */
  lemma {:induction false} AddLeafPlaces(t: Tree, addr: seq<string>)
    requires |addr| >= 2 && AddLeaf(t, addr).Some?
    ensures var r := AddLeaf(t, addr).value;
            GetLeaves(r, addr[..|addr| - 1]).Some? && addr[|addr| - 1] in GetLeaves(r, addr[..|addr| - 1]).value
    decreases |addr|
  {
    if |addr| == 2 {
      assert addr == [addr[0], addr[1]];
      assert addr[..1] == [addr[0]];
      PlacesLast(t, addr[0], addr[1]);
    } else {
      var r := AddLeaf(t, addr).value;
      var p := addr[..|addr| - 1];
      var child := Lookup(t.entries, addr[0]).GetOr(Dir([]));
      var rest := addr[1..];
      assert p[1..] == rest[..|rest| - 1];
      assert rest[|rest| - 1] == addr[|addr| - 1];
      AddLeafPlaces(child, rest);
      assert Lookup(r.entries, addr[0]) == AddLeaf(child, rest);
    }
  }

  lemma PlacesLast(t: Tree, a: string, b: string)
    requires AddLeaf(t, [a, b]).Some?
    ensures GetLeaves(AddLeaf(t, [a, b]).value, [a]).Some?
    ensures b in GetLeaves(AddLeaf(t, [a, b]).value, [a]).value
  {
    var r := AddLeaf(t, [a, b]).value;
    assert [a][1..] == [];
    match Lookup<string, Tree>(t.entries, a)
    case None =>
    case Some(Items(ls)) =>
    case Some(Dir(cs)) =>
  }

  /** Whatever `get_leaves` listed before a successful `add_leaf`, it still lists after. */
  lemma {:induction false} AddLeafKeeps(t: Tree, addr: seq<string>, p: seq<string>, x: string)
    requires AddLeaf(t, addr).Some?
    requires GetLeaves(t, p).Some? && x in GetLeaves(t, p).value
    ensures GetLeaves(AddLeaf(t, addr).value, p).Some?
    ensures x in GetLeaves(AddLeaf(t, addr).value, p).value
    decreases |addr|
  {
    var r := AddLeaf(t, addr).value;
    if |addr| >= 2 {
      var es := t.entries;
      var res := r.entries;
      if p == [] {
        KeysListed(es, x);
        KeysListed(res, x);
        if x != addr[0] {
          OtherKeysKept(t, addr, x);
        } else {
          FirstKeyPresent(t, addr);
        }
      } else if p[0] != addr[0] {
        OtherKeysKept(t, addr, p[0]);
      } else if |addr| == 2 {
        KeepsLast(t, addr[0], addr[1], p, x);
      } else {
        var child := Lookup(es, addr[0]).GetOr(Dir([]));
        assert Lookup(res, addr[0]) == AddLeaf(child, addr[1..]);
        AddLeafKeeps(child, addr[1..], p[1..], x);
      }
    }
  }

  /** `add_leaf` touches only the entry of the first name. */
  lemma OtherKeysKept(t: Tree, addr: seq<string>, k: string)
    requires |addr| >= 2 && AddLeaf(t, addr).Some? && k != addr[0]
    ensures Lookup(AddLeaf(t, addr).value.entries, k) == Lookup(t.entries, k)
  {
  }

  /** After a successful `add_leaf` the first name is a key. */
  lemma FirstKeyPresent(t: Tree, addr: seq<string>)
    requires |addr| >= 2 && AddLeaf(t, addr).Some?
    ensures Lookup(AddLeaf(t, addr).value.entries, addr[0]).Some?
  {
  }

  lemma KeepsLast(t: Tree, a: string, b: string, p: seq<string>, x: string)
    requires AddLeaf(t, [a, b]).Some? && p != [] && p[0] == a
    requires GetLeaves(t, p).Some? && x in GetLeaves(t, p).value
    ensures GetLeaves(AddLeaf(t, [a, b]).value, p).Some?
    ensures x in GetLeaves(AddLeaf(t, [a, b]).value, p).value
  {
    var r := AddLeaf(t, [a, b]).value;
    var q := p[1..];
    match Lookup<string, Tree>(t.entries, a)
    case None =>
    case Some(Items(ls)) =>
      if b !in ls {
        assert Lookup(r.entries, a) == Some(Items(ls + [b]));
      }
    case Some(Dir(cs)) =>
  }

  /** Repeating a successful `add_leaf` changes nothing. */
  lemma {:induction false} AddLeafIdempotent(t: Tree, addr: seq<string>)
    requires AddLeaf(t, addr).Some?
    ensures AddLeaf(AddLeaf(t, addr).value, addr) == AddLeaf(t, addr)
    decreases |addr|
  {
    var r := AddLeaf(t, addr).value;
    if |addr| > 2 {
      var es := t.entries;
      var child := Lookup(es, addr[0]).GetOr(Dir([]));
      AddLeafIdempotent(child, addr[1..]);
      var c := AddLeaf(child, addr[1..]).value;
      assert Lookup(r.entries, addr[0]) == Some(c);
      PutSame(r.entries, addr[0], c);
    }
  }

  /** `add_leaf` never puts a second copy of a name into a list. */
  lemma {:induction false} AddLeafNoRepeats(t: Tree, addr: seq<string>)
    requires NoRepeats(t) && AddLeaf(t, addr).Some?
    ensures NoRepeats(AddLeaf(t, addr).value)
    decreases |addr|
  {
    if |addr| >= 2 {
      var es := t.entries;
      if |addr| == 2 {
        match Lookup<string, Tree>(es, addr[0])
        case None => PutNoRepeats(es, addr[0], Items([addr[1]]));
        case Some(Items(ls)) =>
          if addr[1] !in ls {
            LookupNoRepeats(es, addr[0]);
            PutNoRepeats(es, addr[0], Items(ls + [addr[1]]));
          }
        case Some(Dir(cs)) =>
      } else {
        var child := Lookup(es, addr[0]).GetOr(Dir([]));
        if HasKey(es, addr[0]) {
          LookupNoRepeats(es, addr[0]);
        }
        AddLeafNoRepeats(child, addr[1..]);
        PutNoRepeats(es, addr[0], AddLeaf(child, addr[1..]).value);
      }
    }
  }

  lemma {:induction false} LookupNoRepeats(es: seq<(string, Tree)>, k: string)
    requires NoRepeats(Dir(es)) && HasKey(es, k)
    ensures NoRepeats(Lookup(es, k).value)
  {
    if es[0].0 != k {
      assert NoRepeats(Dir(es[1..])) by {
        forall i | 0 <= i < |es[1..]| ensures NoRepeats(es[1..][i].1) {
          assert es[1..][i] == es[i + 1];
        }
      }
      var i :| 0 <= i < |es| && es[i].0 == k;
      assert es[1..][i - 1].0 == k;
      LookupNoRepeats(es[1..], k);
    }
  }

  lemma {:induction false} PutNoRepeats(es: seq<(string, Tree)>, k: string, v: Tree)
    requires NoRepeats(Dir(es)) && NoRepeats(v)
    ensures NoRepeats(Dir(Put(es, k, v)))
  {
    if es != [] && es[0].0 != k {
      assert NoRepeats(Dir(es[1..])) by {
        forall i | 0 <= i < |es[1..]| ensures NoRepeats(es[1..][i].1) {
          assert es[1..][i] == es[i + 1];
        }
      }
      PutNoRepeats(es[1..], k, v);
      var r := Put(es, k, v);
      forall i | 0 <= i < |r| ensures NoRepeats(r[i].1) {
        if i > 0 {
          assert r[i] == Put(es[1..], k, v)[i - 1];
        }
      }
    } else if es != [] {
      var r := Put(es, k, v);
      forall i | 0 <= i < |r| ensures NoRepeats(r[i].1) {
        if i > 0 {
          assert r[i] == es[i];
        }
      }
    }
  }

  /** The alias table, in insertion order. */
  type Aliases = seq<(string, seq<string>)>

  predicate Named(aliases: Aliases, k: string)
  {
    exists i :: 0 <= i < |aliases| && aliases[i].0 == k
  }

  datatype Knowledge = Knowledge(tree: Tree, aliases: Aliases)

  /** `Spatial(tree, address)`: a home with a living area and no sleep alias gets "睡觉" pointing at
      the bed in the living area. A missing table is the empty one. */
  function NewSpatial(tree: Tree, aliases: Aliases): (r: Knowledge)
    ensures r.tree == tree
    ensures (!Named(aliases, "sleeping") && !Named(aliases, "睡觉") && Named(aliases, "living_area")) ==>
              r.aliases == aliases + [("睡觉", AliasOf(aliases, "living_area") + ["床"])]
    ensures !(!Named(aliases, "sleeping") && !Named(aliases, "睡觉") && Named(aliases, "living_area")) ==>
              r.aliases == aliases
  {
    if !Named(aliases, "sleeping") && !Named(aliases, "睡觉") && Named(aliases, "living_area") then
      Knowledge(tree, aliases + [("睡觉", AliasOf(aliases, "living_area") + ["床"])])
    else Knowledge(tree, aliases)
  }

  /** The path of the first alias named `k`. */
  function AliasOf(aliases: Aliases, k: string): seq<string>
  {
    if aliases == [] then [] else if aliases[0].0 == k then aliases[0].1 else AliasOf(aliases[1..], k)
  }

  /** Index of the first alias whose name occurs in `hint`. */
  function FirstHit(aliases: Aliases, hint: string): (r: Option<nat>)
    ensures r.Some? ==> r.value < |aliases| && Contains(hint, aliases[r.value].0)
    ensures r.Some? ==> forall j :: 0 <= j < r.value ==> !Contains(hint, aliases[j].0)
    ensures r.None? ==> forall j :: 0 <= j < |aliases| ==> !Contains(hint, aliases[j].0)
  {
    if aliases == [] then None
    else if Contains(hint, aliases[0].0) then Some(0)
    else match FirstHit(aliases[1..], hint)
      case None => None
      case Some(i) => Some(i + 1)
  }

  /** `find_address(hint)`: the path of the first alias (in table order) whose name occurs in
      the hint, or `[]`. */
  function FindAddress(k: Knowledge, hint: string): (r: seq<string>)
  {
    match FirstHit(k.aliases, hint)
    case Some(i) => k.aliases[i].1
    case None => []
  }

  /** `find_address(hint, as_list=False)`: the same path joined with ':'. */
  function FindAddressText(k: Knowledge, hint: string): (r: string)
    ensures r == Join(FindAddress(k, hint), ":")
  {
    Join(FindAddress(k, hint), ":")
  }

  /** The lookup answers the first alias that the hint mentions, and `[]` only when the hint
      mentions no alias or the first one it mentions has an empty path. */
  lemma FindAddressFirst(k: Knowledge, hint: string, i: int)
    requires 0 <= i < |k.aliases| && Contains(hint, k.aliases[i].0)
    requires forall j :: 0 <= j < i ==> !Contains(hint, k.aliases[j].0)
    ensures FindAddress(k, hint) == k.aliases[i].1
  {
  }

  lemma FindAddressMiss(k: Knowledge, hint: string)
    requires forall j :: 0 <= j < |k.aliases| ==> !Contains(hint, k.aliases[j].0)
    ensures FindAddress(k, hint) == []
  {
  }

  /** After construction, a hint that mentions "睡觉" (and no earlier alias) finds the bed in the
      living area. */
  lemma SleepAliasFound(tree: Tree, aliases: Aliases, hint: string)
    requires !Named(aliases, "sleeping") && !Named(aliases, "睡觉") && Named(aliases, "living_area")
    requires Contains(hint, "睡觉")
    requires forall j :: 0 <= j < |aliases| ==> !Contains(hint, aliases[j].0)
    ensures FindAddress(NewSpatial(tree, aliases), hint) == AliasOf(aliases, "living_area") + ["床"]
  {
    var k := NewSpatial(tree, aliases);
    FindAddressFirst(k, hint, |aliases|);
  }
}
