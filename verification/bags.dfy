/**
 Order-independent summation of the votes held under a set of keys. A report
 over a hash map visits the keys in an unspecified order; `Sum` picks them in
 an arbitrary order too, and `SumRemove` shows that the order never matters.
 */
module Bags {

  /** The multiset of each token list. */
  function Multisets(lists: map<string, seq<string>>): (b: map<string, multiset<string>>)
    ensures b.Keys == lists.Keys
  {
    map id | id in lists :: multiset(lists[id])
  }

  /** Updating one list updates only that list's multiset. */
  lemma MultisetsUpdate(lists: map<string, seq<string>>, k: string, ts: seq<string>)
    ensures Multisets(lists[k := ts]) == Multisets(lists)[k := multiset(ts)]
  {
    var l := Multisets(lists[k := ts]);
    var r := Multisets(lists)[k := multiset(ts)];
    assert l.Keys == r.Keys;
  }

  /** The multiset union of `m[k]` over all `k` in `keys`. */
  ghost function Sum(m: map<string, multiset<string>>, keys: set<string>): multiset<string>
    requires keys <= m.Keys
    decreases keys
  {
    if keys == {} then multiset{}
    else
      var k :| k in keys;
      Sum(m, keys - {k}) + m[k]
  }

  /** Order independence: the contribution of any one key can be taken out first. */
  lemma {:induction false} SumRemove(m: map<string, multiset<string>>, keys: set<string>, k: string)
    requires keys <= m.Keys
    requires k in keys
    ensures Sum(m, keys) == Sum(m, keys - {k}) + m[k]
    decreases keys
  {
    var j :| j in keys && Sum(m, keys) == Sum(m, keys - {j}) + m[j];
    if j != k {
      SumRemove(m, keys - {j}, k);
      SumRemove(m, keys - {k}, j);
      assert keys - {j} - {k} == keys - {k} - {j};
    }
  }

  /** The sum depends only on the entries under `keys`. */
  lemma {:induction false} SumFrame(m1: map<string, multiset<string>>, m2: map<string, multiset<string>>, keys: set<string>)
    requires keys <= m1.Keys && keys <= m2.Keys
    requires forall k :: k in keys ==> m1[k] == m2[k]
    ensures Sum(m1, keys) == Sum(m2, keys)
    decreases keys
  {
    if keys != {} {
      var k :| k in keys;
      SumRemove(m1, keys, k);
      SumRemove(m2, keys, k);
      SumFrame(m1, m2, keys - {k});
    }
  }

  /** An element occurs in the sum iff it occurs under some key. */
  lemma {:induction false} SumMembers(m: map<string, multiset<string>>, keys: set<string>, t: string)
    requires keys <= m.Keys
    ensures t in Sum(m, keys) <==> exists k :: k in keys && t in m[k]
    decreases keys
  {
    if keys != {} {
      var k :| k in keys;
      SumRemove(m, keys, k);
      SumMembers(m, keys - {k}, t);
    }
  }

  /** The keys in `keys` that `choice` maps to `t`. */
  ghost function Holders(choice: map<string, string>, keys: set<string>, t: string): set<string>
  {
    set k | k in keys && k in choice && choice[k] == t
  }

  /** Adding one key adds it to the holders of `t` exactly when it chooses `t`. */
  lemma HoldersAdd(choice: map<string, string>, rest: set<string>, k: string, t: string)
    requires k in choice && k !in rest
    ensures |Holders(choice, rest + {k}, t)| == |Holders(choice, rest, t)| + (if choice[k] == t then 1 else 0)
  {
    var h := Holders(choice, rest, t);
    if choice[k] == t {
      assert Holders(choice, rest + {k}, t) == h + {k};
    } else {
      assert Holders(choice, rest + {k}, t) == h;
    }
  }

  /** When every entry is the one element `choice[k]`, `t` occurs once per key choosing it. */
  lemma {:induction false} SumOfSingletons(m: map<string, multiset<string>>, choice: map<string, string>, keys: set<string>, t: string)
    requires keys <= m.Keys && keys <= choice.Keys
    requires forall k :: k in keys ==> m[k] == multiset{choice[k]}
    ensures Sum(m, keys)[t] == |Holders(choice, keys, t)|
    decreases keys
  {
    if keys == {} {
      assert Holders(choice, keys, t) == {};
    } else {
      var k :| k in keys;
      var rest := keys - {k};
      SumRemove(m, keys, k);
      SumOfSingletons(m, choice, rest, t);
      HoldersAdd(choice, rest, k, t);
      assert rest + {k} == keys;
      assert Sum(m, keys)[t] == Sum(m, rest)[t] + multiset{choice[k]}[t];
    }
  }

  /** With single-element entries the sum has one element per key. */
  lemma {:induction false} SumOfSingletonsSize(m: map<string, multiset<string>>, choice: map<string, string>, keys: set<string>)
    requires keys <= m.Keys && keys <= choice.Keys
    requires forall k :: k in keys ==> m[k] == multiset{choice[k]}
    ensures |Sum(m, keys)| == |keys|
    decreases keys
  {
    if keys != {} {
      var k :| k in keys;
      SumRemove(m, keys, k);
      SumOfSingletonsSize(m, choice, keys - {k});
    }
  }

  /** Replacing the entry under `k` swaps its old contribution for the new one. */
  lemma SumReplace(m: map<string, multiset<string>>, k: string, v: multiset<string>)
    requires k in m
    ensures m[k] <= Sum(m, m.Keys)
    ensures Sum(m[k := v], m.Keys) == Sum(m, m.Keys) - m[k] + v
  {
    var m' := m[k := v];
    var others := m.Keys - {k};
    var rest := Sum(m, others);
    assert m'.Keys == m.Keys;
    SumRemove(m', m.Keys, k);
    SumFrame(m', m, others);
    SumRemove(m, m.Keys, k);
    assert (rest + m[k]) - m[k] == rest;
  }

  /** Adding an entry under a new key adds its contribution. */
  lemma SumInsert(m: map<string, multiset<string>>, k: string, v: multiset<string>)
    requires k !in m
    ensures Sum(m[k := v], m.Keys + {k}) == Sum(m, m.Keys) + v
  {
    var m' := m[k := v];
    assert m'.Keys == m.Keys + {k};
    SumRemove(m', m'.Keys, k);
    assert m'.Keys - {k} == m.Keys;
    SumFrame(m', m, m.Keys);
  }

  /** Putting a token list under `k` swaps the old list's tokens, if any, for the new ones. */
  lemma SumAfterPut(lists: map<string, seq<string>>, k: string, ts: seq<string>)
    ensures k in lists ==> multiset(lists[k]) <= Sum(Multisets(lists), lists.Keys)
    ensures k in lists ==>
              Sum(Multisets(lists[k := ts]), lists.Keys)
              == Sum(Multisets(lists), lists.Keys) - multiset(lists[k]) + multiset(ts)
    ensures k !in lists ==>
              Sum(Multisets(lists[k := ts]), lists.Keys + {k}) == Sum(Multisets(lists), lists.Keys) + multiset(ts)
  {
    var b := Multisets(lists);
    MultisetsUpdate(lists, k, ts);
    if k in lists {
      SumReplace(b, k, multiset(ts));
    } else {
      SumInsert(b, k, multiset(ts));
    }
  }

  /** The token list `read` gives for each stored answer, keyed like `subs`. */
  function ListsOf(read: string -> seq<string>, subs: map<string, string>): (lists: map<string, seq<string>>)
    ensures lists.Keys == subs.Keys
    ensures forall id :: id in subs ==> lists[id] == read(subs[id])
  {
    map id | id in subs :: read(subs[id])
  }

  /** Every token `read` gives for any answer stored in `subs`. */
  ghost function BagOf(read: string -> seq<string>, subs: map<string, string>): multiset<string>
  {
    Sum(Multisets(ListsOf(read, subs)), subs.Keys)
  }

  /** Storing `a` under `id` changes that key's token list and no other. */
  lemma ListsOfPut(read: string -> seq<string>, subs: map<string, string>, id: string, a: string)
    ensures ListsOf(read, subs[id := a]) == ListsOf(read, subs)[id := read(a)]
  {
    var l := ListsOf(read, subs[id := a]);
    var r := ListsOf(read, subs)[id := read(a)];
    assert l.Keys == r.Keys;
  }

  /** Storing `a` under `id` swaps the tokens of the answer stored there, if any, for those of `a`. */
  lemma BagOfPut(read: string -> seq<string>, subs: map<string, string>, id: string, a: string)
    ensures id in subs ==> multiset(read(subs[id])) <= BagOf(read, subs)
    ensures id in subs ==>
              BagOf(read, subs[id := a]) == BagOf(read, subs) - multiset(read(subs[id])) + multiset(read(a))
    ensures id !in subs ==> BagOf(read, subs[id := a]) == BagOf(read, subs) + multiset(read(a))
  {
    var lists := ListsOf(read, subs);
    ListsOfPut(read, subs, id, a);
    SumAfterPut(lists, id, read(a));
    assert subs[id := a].Keys == lists.Keys + {id};
    if id in subs {
      assert lists.Keys + {id} == lists.Keys;
    }
  }

  /** Nothing stored, no tokens. */
  lemma BagOfEmpty(read: string -> seq<string>)
    ensures BagOf(read, map[]) == multiset{}
  {
    var e: map<string, string> := map[];
    assert e.Keys == {};
  }

  /** An answer stored under a new key adds its tokens. */
  lemma BagOfInsert(read: string -> seq<string>, subs: map<string, string>, id: string, a: string)
    requires id !in subs
    ensures BagOf(read, subs[id := a]) == BagOf(read, subs) + multiset(read(a))
  {
    BagOfPut(read, subs, id, a);
  }

  /** A third key is not among two stored ones. */
  lemma AbsentFromTwo(i0: string, i1: string, i2: string, a0: string, a1: string)
    requires i0 != i2 && i1 != i2
    ensures i2 !in map[i0 := a0, i1 := a1]
  {
  }

  /** Three answers stored under three different keys contribute all their tokens, once each. */
  lemma BagOfThree(read: string -> seq<string>, i0: string, i1: string, i2: string, a0: string, a1: string, a2: string)
    requires i0 != i1 && i0 != i2 && i1 != i2
    ensures BagOf(read, map[i0 := a0, i1 := a1, i2 := a2])
            == multiset(read(a0)) + multiset(read(a1)) + multiset(read(a2))
  {
    var m0: map<string, string> := map[];
    var m1 := m0[i0 := a0];
    var m2 := m1[i1 := a1];
    BagOfEmpty(read);
    BagOfInsert(read, m0, i0, a0);
    BagOfInsert(read, m1, i1, a1);
    assert i2 !in m2 by { AbsentFromTwo(i0, i1, i2, a0, a1); }
    BagOfInsert(read, m2, i2, a2);
    assert m2[i2 := a2] == map[i0 := a0, i1 := a1, i2 := a2];
  }
}
