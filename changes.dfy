/**
 The price-change values of a currency and the order in which the colour
 assignment ranks them.

 Only the keys "change1h", "change24h" and "change7d" ever occur in the maps
 of the colour assignment, so they are modelled as a datatype. The maps are
 Kotlin `LinkedHashMap`s filled in the order 1h, 24h, 7d; removing an entry
 keeps the relative order of the others, so iteration always visits the
 present keys in that fixed order (`IterationOrder`).
 */
module Changes {
  import opened Wrappers

  datatype ChangeKey = Change1h | Change24h | Change7d

  /** The string key under which the renderer looks the colour up. */
  function KeyName(k: ChangeKey): string
  {
    match k
    case Change1h => "change1h"
    case Change24h => "change24h"
    case Change7d => "change7d"
  }

  /** Different keys have different names, so the result map loses no entry when keyed by name. */
  lemma KeyNamesDistinct(j: ChangeKey, k: ChangeKey)
    requires j != k
    ensures KeyName(j) != KeyName(k)
  {
    if {j, k} == {Change1h, Change7d} {
      assert KeyName(Change1h)[6] == '1' && KeyName(Change7d)[6] == '7';
    } else {
      assert |KeyName(j)| != |KeyName(k)|;
    }
  }

  /** Position of a key in the insertion (and iteration) order of the maps. */
  function Index(k: ChangeKey): nat
  {
    match k
    case Change1h => 0
    case Change24h => 1
    case Change7d => 2
  }

  const IterationOrder: seq<ChangeKey> := [Change1h, Change24h, Change7d]

  const AllKeys: set<ChangeKey> := {Change1h, Change24h, Change7d}

  /** The part of a currency's details that the colour assignment reads. */
  datatype CurrencyDetails = CurrencyDetails(
    change1h: Option<real>,
    change24h: Option<real>,
    change7d: Option<real>)

  function Change(d: CurrencyDetails, k: ChangeKey): Option<real>
  {
    match k
    case Change1h => d.change1h
    case Change24h => d.change24h
    case Change7d => d.change7d
  }

  /**
   `j` comes before `k` in `m` when its value is smaller, or equal and `j`
   is visited first. This is a strict total order on the keys of `m`.
   */
  predicate Precedes(m: map<ChangeKey, real>, j: ChangeKey, k: ChangeKey)
  {
    j in m && k in m && (m[j] < m[k] || (m[j] == m[k] && Index(j) < Index(k)))
  }

  /** The keys of `m` that come before `k`. */
  function Preceding(m: map<ChangeKey, real>, k: ChangeKey): set<ChangeKey>
  {
    set j | j in m && Precedes(m, j, k)
  }

  /**
   The rank of `k` in `m`: how many entries of `m` come before it. The
   entry with the smallest value has rank 0, the next one rank 1, and so on.
   */
  function RankIn(m: map<ChangeKey, real>, k: ChangeKey): nat
  {
    |Preceding(m, k)|
  }

  lemma SubsetCardinality(a: set<ChangeKey>, b: set<ChangeKey>)
    requires a <= b
    ensures |a| <= |b|
  {
    assert b == a + (b - a);
  }

  /** A map over the change keys has at most three entries. */
  lemma SizeBound(m: map<ChangeKey, real>)
    ensures |m| <= 3
  {
    forall k | k in m ensures k in AllKeys {
      assert k.Change1h? || k.Change24h? || k.Change7d?;
    }
    SubsetCardinality(m.Keys, AllKeys);
  }

  /** Ranks of the entries of `m` lie in 0 .. |m| - 1. */
  lemma RankBelowSize(m: map<ChangeKey, real>, k: ChangeKey)
    requires k in m
    ensures RankIn(m, k) < |m| <= 3
  {
    SubsetCardinality(Preceding(m, k), m.Keys - {k});
    SizeBound(m);
  }

  /** An entry that comes before another has a strictly smaller rank. */
  lemma RankMonotone(m: map<ChangeKey, real>, a: ChangeKey, b: ChangeKey)
    requires Precedes(m, a, b)
    ensures RankIn(m, a) < RankIn(m, b)
  {
    assert a !in Preceding(m, a);
    SubsetCardinality(Preceding(m, a) + {a}, Preceding(m, b));
  }

  /** Distinct entries have distinct ranks. */
  lemma RankInjective(m: map<ChangeKey, real>, a: ChangeKey, b: ChangeKey)
    requires a in m && b in m && a != b
    ensures RankIn(m, a) != RankIn(m, b)
  {
    if Precedes(m, a, b) {
      RankMonotone(m, a, b);
    } else {
      RankMonotone(m, b, a);
    }
  }

  /** Rank 0 belongs exactly to the entry that no other entry comes before. */
  lemma RankZeroIffFirst(m: map<ChangeKey, real>, k: ChangeKey)
    ensures RankIn(m, k) == 0 <==> forall j :: j in m ==> !Precedes(m, j, k)
  {
    if RankIn(m, k) != 0 {
      assert Preceding(m, k) != {};
      var j :| j in Preceding(m, k);
      assert j in m && Precedes(m, j, k);
    } else {
      forall j | j in m ensures !Precedes(m, j, k) {
        assert j !in Preceding(m, k);
      }
    }
  }

  /**
   Removing the first entry of `m` moves every other entry one rank up:
   what was second becomes first, what was third becomes second.
   */
  lemma RankAfterRemovingFirst(m: map<ChangeKey, real>, f: ChangeKey, k: ChangeKey)
    requires f in m && k in m && f != k
    requires RankIn(m, f) == 0
    ensures RankIn(m - {f}, k) + 1 == RankIn(m, k)
  {
    RankZeroIffFirst(m, f);
    assert !Precedes(m, k, f);
    assert Preceding(m, k) == Preceding(m - {f}, k) + {f};
  }
}
