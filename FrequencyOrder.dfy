/**
 * The order of the frequency section of the plain-text report: the entries
 * of the frequency map, enumerated in the map's iteration order, sorted by
 * count from highest to lowest (`.sorted(comparingByValue().reversed())`). The
 * entry-set stream of a hash map is unordered, so the sort is modelled as a
 * stable sort over the given iteration order.
 *
 * The hash map's iteration order is not specified; it is a parameter
 * (`order`, any enumeration of the keys), so the properties proved here hold
 * whatever it is.
 */
module FrequencyOrder {

  /** A map entry: a token and its count. */
  datatype Entry = Entry(word: string, count: int)

  /** `order` lists every key of the map exactly once. */
  predicate Enumerates(order: seq<string>, keys: set<string>)
  {
    && (forall i :: 0 <= i < |order| ==> order[i] in keys)
    && (forall k :: k in keys ==> k in order)
    && (forall i, j :: 0 <= i < j < |order| ==> order[i] != order[j])
  }

  /** The map's entries in iteration order. */
  function Entries(m: map<string, int>, order: seq<string>): (es: seq<Entry>)
    requires forall i :: 0 <= i < |order| ==> order[i] in m
    ensures |es| == |order|
    ensures forall i :: 0 <= i < |es| ==> es[i] == Entry(order[i], m[order[i]])
  {
    if order == [] then [] else [Entry(order[0], m[order[0]])] + Entries(m, order[1..])
  }

  /** Counts never increase along the sequence. */
  predicate NonIncreasing(es: seq<Entry>)
  {
    forall i, j :: 0 <= i < j < |es| ==> es[i].count >= es[j].count
  }

  /** No token appears twice. */
  predicate DistinctWords(es: seq<Entry>)
  {
    forall i, j :: 0 <= i < j < |es| ==> es[i].word != es[j].word
  }

  /** Place e before the first entry whose count is not larger than e's
      (all of which come after e in the input, so equal counts keep their
      input order). */
  function Insert(e: Entry, sorted: seq<Entry>): (r: seq<Entry>)
    ensures multiset(r) == multiset(sorted) + multiset{e}
    ensures |r| == |sorted| + 1
  {
    if sorted == [] || e.count >= sorted[0].count then [e] + sorted
    else
      assert sorted == [sorted[0]] + sorted[1..];
      [sorted[0]] + Insert(e, sorted[1..])
  }

  /** The sort of the frequency section, by count, highest first: modelled
      as a stable sort over the given iteration order. */
  function SortByCountDescending(es: seq<Entry>): (r: seq<Entry>)
    ensures multiset(r) == multiset(es)
  {
    if es == [] then []
    else
      assert es == [es[0]] + es[1..];
      Insert(es[0], SortByCountDescending(es[1..]))
  }

  lemma {:induction false} InsertNonIncreasing(e: Entry, sorted: seq<Entry>)
    requires NonIncreasing(sorted)
    ensures NonIncreasing(Insert(e, sorted))
  {
    if sorted != [] && e.count < sorted[0].count {
      var rest := Insert(e, sorted[1..]);
      InsertNonIncreasing(e, sorted[1..]);
      var r := [sorted[0]] + rest;
      forall j | 0 < j < |r| ensures r[0].count >= r[j].count {
        assert r[j] in multiset(rest);
        assert r[j] in multiset(sorted[1..]) + multiset{e};
        if r[j] != e {
          assert r[j] in sorted[1..];
          var k :| 0 <= k < |sorted[1..]| && sorted[1..][k] == r[j];
          assert sorted[k + 1] == r[j];
        }
      }
      assert Insert(e, sorted) == r;
    }
  }

  /** The sorted entries are in non-increasing order of count. */
  lemma {:induction false} SortNonIncreasing(es: seq<Entry>)
    ensures NonIncreasing(SortByCountDescending(es))
  {
    if es != [] {
      SortNonIncreasing(es[1..]);
      InsertNonIncreasing(es[0], SortByCountDescending(es[1..]));
    }
  }

  lemma {:induction false} EntriesDistinct(m: map<string, int>, order: seq<string>)
    requires forall i :: 0 <= i < |order| ==> order[i] in m
    requires forall i, j :: 0 <= i < j < |order| ==> order[i] != order[j]
    ensures DistinctWords(Entries(m, order))
  {
  }

  /** Two entries with the same token are the same element of a multiset
      of map entries, so distinct tokens survive any permutation. */
  lemma {:induction false} PermutationKeepsDistinctWords(a: seq<Entry>, b: seq<Entry>)
    requires multiset(a) == multiset(b)
    requires DistinctWords(a)
    ensures DistinctWords(b)
  {
    forall i, j | 0 <= i < j < |b| ensures b[i].word != b[j].word {
      if b[i].word == b[j].word {
        assert b[i] in multiset(a) && b[j] in multiset(a);
        var x :| 0 <= x < |a| && a[x] == b[i];
        var y :| 0 <= y < |a| && a[y] == b[j];
        assert x == y;
        assert b[i] == b[j];
        TwoIndicesTwoCopies(b, i, j);
        OneIndexOneCopy(a, x);
        assert false;
      }
    }
  }

  lemma {:induction false} TwoIndicesTwoCopies(s: seq<Entry>, i: nat, j: nat)
    requires i < j < |s| && s[i] == s[j]
    ensures multiset(s)[s[i]] >= 2
  {
    var x := s[i];
    assert s == s[..i] + [x] + s[i + 1..j] + [x] + s[j + 1..];
    assert multiset(s) == multiset(s[..i]) + multiset{x} + multiset(s[i + 1..j]) + multiset{x} + multiset(s[j + 1..]);
  }

  lemma {:induction false} OneIndexOneCopy(s: seq<Entry>, i: nat)
    requires i < |s|
    requires DistinctWords(s)
    ensures multiset(s)[s[i]] == 1
  {
    var x := s[i];
    assert s == s[..i] + [x] + s[i + 1..];
    assert x !in s[..i] by {
      forall k | 0 <= k < i ensures s[k] != x { assert s[k].word != x.word; }
    }
    assert x !in s[i + 1..] by {
      forall k | i + 1 <= k < |s| ensures s[k] != x { assert s[k].word != x.word; }
    }
    assert multiset(s) == multiset(s[..i]) + multiset{x} + multiset(s[i + 1..]);
  }

  /** The frequency section: the map's entries, from the given iteration
      order, sorted by count, highest first. */
  function FrequencyListing(m: map<string, int>, order: seq<string>): (listing: seq<Entry>)
    requires Enumerates(order, m.Keys)
  {
    SortByCountDescending(Entries(m, order))
  }

  /** The frequency section has one entry per element of the iteration
      order. */
  lemma FrequencyListingLength(m: map<string, int>, order: seq<string>)
    requires Enumerates(order, m.Keys)
    ensures |FrequencyListing(m, order)| == |order|
  {
    var es := Entries(m, order);
    assert |FrequencyListing(m, order)| == |multiset(FrequencyListing(m, order))| == |multiset(es)| == |es|;
  }

  /** Whatever the iteration order, the frequency section lists each
      distinct token exactly once, with its count, and nothing else, in
      non-increasing order of count. */
  lemma FrequencyListingIsSortedPermutation(m: map<string, int>, order: seq<string>)
    requires Enumerates(order, m.Keys)
    ensures |FrequencyListing(m, order)| == |m|
    ensures forall i :: 0 <= i < |FrequencyListing(m, order)| ==>
      FrequencyListing(m, order)[i].word in m &&
      FrequencyListing(m, order)[i].count == m[FrequencyListing(m, order)[i].word]
    ensures forall k :: k in m ==> exists i :: 0 <= i < |FrequencyListing(m, order)| && FrequencyListing(m, order)[i].word == k
    ensures DistinctWords(FrequencyListing(m, order))
    ensures NonIncreasing(FrequencyListing(m, order))
  {
    var es := Entries(m, order);
    var listing := FrequencyListing(m, order);
    assert multiset(listing) == multiset(es);
    SortNonIncreasing(es);
    EntriesDistinct(m, order);
    PermutationKeepsDistinctWords(es, listing);
    EnumerationSize(order, m.Keys);
    assert |listing| == |multiset(listing)| == |multiset(es)| == |es|;
    forall i | 0 <= i < |listing|
      ensures listing[i].word in m && listing[i].count == m[listing[i].word]
    {
      assert listing[i] in multiset(es);
    }
    forall k | k in m
      ensures exists i :: 0 <= i < |listing| && listing[i].word == k
    {
      var x :| 0 <= x < |order| && order[x] == k;
      assert es[x] in multiset(listing);
      var i :| 0 <= i < |listing| && listing[i] == es[x];
    }
  }

  /** An enumeration of a set has as many elements as the set. */
  lemma {:induction false} EnumerationSize(order: seq<string>, keys: set<string>)
    requires Enumerates(order, keys)
    ensures |order| == |keys|
  {
    if order != [] {
      var rest := order[1..];
      assert Enumerates(rest, keys - {order[0]}) by {
        forall i | 0 <= i < |rest| ensures rest[i] in keys - {order[0]} {
          assert rest[i] == order[i + 1];
        }
        forall k | k in keys - {order[0]} ensures k in rest {
          var x :| 0 <= x < |order| && order[x] == k;
          assert x != 0;
          assert rest[x - 1] == k;
        }
        forall i, j | 0 <= i < j < |rest| ensures rest[i] != rest[j] {
          assert rest[i] == order[i + 1] && rest[j] == order[j + 1];
        }
      }
      EnumerationSize(rest, keys - {order[0]});
    } else {
      assert keys == {};
    }
  }
}
