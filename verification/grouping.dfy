/**
 Counting by key, as the engine does it with a plain object: each key in
 turn adds one to its count, starting from zero, and the object's entries are
 listed at the end. An entry is a key with its count; entries come out
 in the order their keys first occurred. The shared ranking puts the larger
 count first and breaks ties by name.
 */
module Grouping {
  import opened Strings
  import opened Seqs

  datatype Entry = Entry(name: string, count: nat)

  function NameOf(e: Entry): string {
    e.name
  }

  /** No two entries share a name. */
  ghost predicate DistinctNames(es: seq<Entry>) {
    DistinctBy(es, NameOf)
  }

  /** The count stored under `k`, or 0 when there is no entry for it. */
  function Lookup(es: seq<Entry>, k: string): nat {
    if es == [] then 0
    else if es[0].name == k then es[0].count
    else Lookup(es[1..], k)
  }

  predicate HasName(es: seq<Entry>, k: string) {
    exists i :: 0 <= i < |es| && es[i].name == k
  }

  /** The sum of the counts. */
  function Total(es: seq<Entry>): nat {
    if es == [] then 0 else es[0].count + Total(es[1..])
  }

  /** Counting one more `k`: an existing entry grows, a new key is appended with count 1. */
  function Bump(es: seq<Entry>, k: string): (r: seq<Entry>)
    ensures |r| == |es| || |r| == |es| + 1
  {
    if es == [] then [Entry(k, 1)]
    else if es[0].name == k then [es[0].(count := es[0].count + 1)] + es[1..]
    else [es[0]] + Bump(es[1..], k)
  }

  /** The tally of `keys`, built one key at a time in order. */
  function Group(keys: seq<string>): seq<Entry>
    decreases |keys|
  {
    if keys == [] then [] else Bump(Group(keys[..|keys| - 1]), keys[|keys| - 1])
  }

  lemma {:induction false} BumpLookup(es: seq<Entry>, k: string, x: string)
    ensures Lookup(Bump(es, k), x) == Lookup(es, x) + (if x == k then 1 else 0)
  {
    if es != [] && es[0].name != k {
      BumpLookup(es[1..], k, x);
    }
  }

  lemma {:induction false} BumpNames(es: seq<Entry>, k: string, x: string)
    ensures HasName(Bump(es, k), x) <==> HasName(es, x) || x == k
  {
    var r := Bump(es, k);
    if es == [] {
      assert r[0].name == k;
    } else if es[0].name == k {
      assert r[0].name == k;
      if HasName(es, x) {
        var i :| 0 <= i < |es| && es[i].name == x;
        assert r[i].name == x;
      }
      if HasName(r, x) {
        var i :| 0 <= i < |r| && r[i].name == x;
        assert es[i].name == x;
      }
    } else {
      BumpNames(es[1..], k, x);
      if HasName(es, x) {
        var i :| 0 <= i < |es| && es[i].name == x;
        if i > 0 {
          assert es[1..][i - 1].name == x;
        } else {
          assert r[0].name == x;
        }
      }
      if HasName(es[1..], x) || x == k {
        if x == k {
          assert HasName(r[1..], x);
        }
        var i :| 0 <= i < |r[1..]| && r[1..][i].name == x;
        assert r[i + 1].name == x;
      }
      if HasName(r, x) {
        var i :| 0 <= i < |r| && r[i].name == x;
        if i > 0 {
          assert r[1..][i - 1].name == x;
        } else {
          assert es[0].name == x;
        }
      }
    }
  }

  lemma {:induction false} BumpDistinct(es: seq<Entry>, k: string)
    requires DistinctNames(es)
    ensures DistinctNames(Bump(es, k))
  {
    var r := Bump(es, k);
    if es == [] {
    } else if es[0].name == k {
      forall i, j | 0 <= i < j < |r| ensures r[i].name != r[j].name {
        assert r[i].name == es[i].name && r[j].name == es[j].name;
      }
    } else {
      var rest := Bump(es[1..], k);
      assert DistinctNames(es[1..]) by {
        forall i, j | 0 <= i < j < |es| - 1 ensures es[1..][i].name != es[1..][j].name {
          assert es[1..][i] == es[i + 1] && es[1..][j] == es[j + 1];
        }
      }
      BumpDistinct(es[1..], k);
      assert !HasName(es[1..], es[0].name) by {
        forall i | 0 <= i < |es| - 1 ensures es[1..][i].name != es[0].name {
          assert es[1..][i] == es[i + 1];
        }
      }
      BumpNames(es[1..], k, es[0].name);
      assert !HasName(rest, es[0].name);
      forall i, j | 0 <= i < j < |r| ensures r[i].name != r[j].name {
        if i == 0 {
          assert r[j] == rest[j - 1];
        } else {
          assert r[i] == rest[i - 1] && r[j] == rest[j - 1];
        }
      }
    }
  }

  lemma {:induction false} BumpTotal(es: seq<Entry>, k: string)
    ensures Total(Bump(es, k)) == Total(es) + 1
  {
    if es != [] && es[0].name != k {
      BumpTotal(es[1..], k);
    } else if es != [] {
      assert Bump(es, k)[1..] == es[1..];
    }
  }

  lemma {:induction false} BumpPositive(es: seq<Entry>, k: string)
    requires forall e <- es :: e.count >= 1
    ensures forall e <- Bump(es, k) :: e.count >= 1
  {
    if es != [] && es[0].name != k {
      BumpPositive(es[1..], k);
    }
  }

  /**
   The tally counts every key as often as it occurs, has one entry per
   distinct key and none for anything else, and no entry is zero.
   */
  lemma {:induction false} GroupCounts(keys: seq<string>)
    ensures DistinctNames(Group(keys))
    ensures forall x :: Lookup(Group(keys), x) == multiset(keys)[x]
    ensures forall x :: HasName(Group(keys), x) <==> x in keys
    ensures forall e <- Group(keys) :: e.count >= 1
    decreases |keys|
  {
    if keys != [] {
      var init, k := keys[..|keys| - 1], keys[|keys| - 1];
      GroupCounts(init);
      SplitLast(keys);
      BumpDistinct(Group(init), k);
      BumpPositive(Group(init), k);
      forall x ensures Lookup(Group(keys), x) == multiset(keys)[x] {
        BumpLookup(Group(init), k, x);
      }
      forall x ensures HasName(Group(keys), x) <==> x in keys {
        BumpNames(Group(init), k, x);
      }
    }
  }

  /** The counts add up to the number of keys. */
  lemma {:induction false} GroupTotal(keys: seq<string>)
    ensures Total(Group(keys)) == |keys|
    decreases |keys|
  {
    if keys != [] {
      GroupTotal(keys[..|keys| - 1]);
      BumpTotal(Group(keys[..|keys| - 1]), keys[|keys| - 1]);
    }
  }

  /** With distinct names, an entry's count is what lookup finds under its name. */
  lemma {:induction false} LookupEntry(es: seq<Entry>, i: nat)
    requires DistinctNames(es) && i < |es|
    ensures Lookup(es, es[i].name) == es[i].count
  {
    if i > 0 {
      assert es[0].name != es[i].name;
      assert DistinctNames(es[1..]) by {
        forall a, b | 0 <= a < b < |es| - 1 ensures es[1..][a].name != es[1..][b].name {
          assert es[1..][a] == es[a + 1] && es[1..][b] == es[b + 1];
        }
      }
      LookupEntry(es[1..], i - 1);
    }
  }

  /** Every entry of the tally carries its key's number of occurrences. */
  lemma GroupEntryCount(keys: seq<string>, i: nat)
    requires i < |Group(keys)|
    ensures Group(keys)[i].count == multiset(keys)[Group(keys)[i].name]
    ensures Group(keys)[i].name in keys
  {
    GroupCounts(keys);
    LookupEntry(Group(keys), i);
    assert HasName(Group(keys), Group(keys)[i].name);
  }

  /** There are as many entries as distinct keys. */
  lemma GroupSize(keys: seq<string>)
    ensures |Group(keys)| == |Elements(keys)|
  {
    var es := Group(keys);
    GroupCounts(keys);
    var names := Map(NameOf, es);
    assert Distinct(names);
    DistinctCardinality(names);
    assert Elements(names) == Elements(keys) by {
      forall x | x in keys ensures x in names {
        assert HasName(es, x);
        var i :| 0 <= i < |es| && es[i].name == x;
        assert names[i] == x;
      }
      forall x | x in names ensures x in keys {
        var i :| 0 <= i < |names| && names[i] == x;
        assert HasName(es, x);
      }
    }
  }

  /**
   Any reordering of the tally is still the tally: one entry per distinct key,
   each with its key's number of occurrences, and nothing else.
   */
  lemma PermutedTally(keys: seq<string>, r: seq<Entry>)
    requires multiset(r) == multiset(Group(keys))
    ensures |r| == |Elements(keys)|
    ensures DistinctNames(r)
    ensures forall i :: 0 <= i < |r| ==> r[i].name in keys && r[i].count == multiset(keys)[r[i].name]
    ensures forall x :: x in keys ==> HasName(r, x)
  {
    var g := Group(keys);
    GroupSize(keys);
    GroupCounts(keys);
    assert |r| == |g| by {
      assert |multiset(r)| == |multiset(g)|;
    }
    assert DistinctBy(g, NameOf);
    PermutationDistinctBy(r, g, NameOf);
    forall i | 0 <= i < |r| ensures r[i].name in keys && r[i].count == multiset(keys)[r[i].name] {
      assert r[i] in multiset(g);
      var k :| 0 <= k < |g| && g[k] == r[i];
      GroupEntryCount(keys, k);
    }
    forall x | x in keys ensures HasName(r, x) {
      assert HasName(g, x);
      var k :| 0 <= k < |g| && g[k].name == x;
      assert g[k] in multiset(r);
      var i :| 0 <= i < |r| && r[i] == g[k];
    }
  }

  /* ---------------------------------------------------------------------- */
  /* Ranking                                                                */
  /* ---------------------------------------------------------------------- */

  /**
   The ranking comparator, as the strict order it induces: entry `a` goes
   first when its count is larger, or when the counts tie and its name is
   smaller.
   */
  predicate RankLt(a: Entry, b: Entry) {
    a.count > b.count || (a.count == b.count && StrLt(a.name, b.name))
  }

  lemma RankStrictOrder()
    ensures StrictOrder(RankLt)
  {
    forall a: Entry ensures !RankLt(a, a) {
      StrLtIrreflexive(a.name);
    }
    forall a: Entry, b: Entry, c: Entry | RankLt(a, b) && RankLt(b, c) ensures RankLt(a, c) {
      if a.count == b.count == c.count {
        StrLtTransitive(a.name, b.name, c.name);
      }
    }
  }

  /** Two entries with different names are always ranked one way or the other. */
  lemma RankTotal(a: Entry, b: Entry)
    requires a.name != b.name
    ensures RankLt(a, b) || RankLt(b, a)
  {
    StrLtTotal(a.name, b.name);
  }

  /** The tally's entries sorted by the ranking. */
  function Ranked(keys: seq<string>): seq<Entry> {
    SortBy(Group(keys), RankLt)
  }

  /**
   The ranking holds a tally: one entry per distinct key, each with its
   count, in strictly decreasing rank (a larger count first, then the smaller
   name).
   */
  lemma RankedSpec(keys: seq<string>)
    ensures var r := Ranked(keys);
      && |r| == |Elements(keys)|
      && (forall i :: 0 <= i < |r| ==> r[i].name in keys && r[i].count == multiset(keys)[r[i].name])
      && (forall x :: x in keys ==> HasName(r, x))
      && (forall i, j :: 0 <= i < j < |r| ==> RankLt(r[i], r[j]))
  {
    var g, r := Group(keys), Ranked(keys);
    PermutedTally(keys, r);
    RankStrictOrder();
    SortBySorted(g, RankLt);
    forall i, j | 0 <= i < j < |r| ensures RankLt(r[i], r[j]) {
      RankTotal(r[i], r[j]);
    }
  }

  /** The first `n` entries, or all of them when there are fewer. */
  function Take<T>(s: seq<T>, n: nat): (r: seq<T>)
    ensures |r| == if n < |s| then n else |s|
    ensures forall i :: 0 <= i < |r| ==> r[i] == s[i]
  {
    if n < |s| then s[..n] else s
  }
}
