/**
 The counting loops of `printResults`, over plain token lists: a map from
 token to count is built by adding one per token occurrence, visiting the
 lists in an arbitrary order. The result is `CountsOf` the multiset of all
 tokens, which does not depend on that order.
 */
module Counting {
  import opened Bags

  /** The count map of a bag: a key for each token that occurs, with its multiplicity. */
  function CountsOf(bag: multiset<string>): (counts: map<string, nat>)
    ensures forall t :: t in counts <==> t in bag
    ensures forall t :: t in counts ==> counts[t] == bag[t]
  {
    map t | t in bag :: bag[t]
  }

  /** One more occurrence of `t` is one more in its count, starting from zero when `t` is new. */
  lemma CountsOfAdd(bag: multiset<string>, counts: map<string, nat>, t: string)
    requires counts == CountsOf(bag)
    ensures CountsOf(bag + multiset{t}) == counts[t := (if t in counts then counts[t] else 0) + 1]
  {
    var l := CountsOf(bag + multiset{t});
    var r := counts[t := (if t in counts then counts[t] else 0) + 1];
    assert l.Keys == r.Keys;
  }

  /** Counting the token at position `i` extends the counts of the prefix before it by one. */
  lemma CountStep(bag: multiset<string>, ts: seq<string>, i: nat, counts: map<string, nat>)
    requires i < |ts|
    requires counts == CountsOf(bag + multiset(ts[..i]))
    ensures CountsOf(bag + multiset(ts[..i + 1]))
            == counts[ts[i] := (if ts[i] in counts then counts[ts[i]] else 0) + 1]
  {
    assert ts[..i + 1] == ts[..i] + [ts[i]];
    assert bag + multiset(ts[..i + 1]) == bag + multiset(ts[..i]) + multiset{ts[i]};
    CountsOfAdd(bag + multiset(ts[..i]), counts, ts[i]);
  }

  /** The inner loop: add one to the count of each token, duplicates included. */
  method CountTokens(counts: map<string, nat>, ts: seq<string>, ghost bag: multiset<string>)
    returns (r: map<string, nat>)
    requires counts == CountsOf(bag)
    ensures r == CountsOf(bag + multiset(ts))
  {
    r := counts;
    var i := 0;
    assert ts[..0] == [];
    while i < |ts|
      invariant 0 <= i <= |ts|
      invariant r == CountsOf(bag + multiset(ts[..i]))
    {
      var t := ts[i];
      var c := if t in r then r[t] else 0;
      CountStep(bag, ts, i, r);
      r := r[t := c + 1];
      i := i + 1;
    }
    assert ts[..|ts|] == ts;
  }

  /** Visiting one more key adds its tokens to the running bag. */
  lemma AddList(lists: map<string, seq<string>>, done: set<string>, id: string)
    requires done <= lists.Keys && id in lists && id !in done
    ensures Sum(Multisets(lists), done + {id}) == Sum(Multisets(lists), done) + multiset(lists[id])
  {
    SumRemove(Multisets(lists), done + {id}, id);
    assert done + {id} - {id} == done;
  }

  /** The outer loop: count the tokens of every list, visiting the keys in an arbitrary order. */
  method CountAll(lists: map<string, seq<string>>) returns (counts: map<string, nat>)
    ensures counts == CountsOf(Sum(Multisets(lists), lists.Keys))
  {
    counts := map[];
    var remaining := lists.Keys;
    while remaining != {}
      invariant remaining <= lists.Keys
      invariant counts == CountsOf(Sum(Multisets(lists), lists.Keys - remaining))
      decreases remaining
    {
      var id :| id in remaining;
      ghost var done := lists.Keys - remaining;
      counts := CountTokens(counts, lists[id], Sum(Multisets(lists), done));
      AddList(lists, done, id);
      assert done + {id} == lists.Keys - (remaining - {id});
      remaining := remaining - {id};
    }
    assert lists.Keys - remaining == lists.Keys;
  }
}
