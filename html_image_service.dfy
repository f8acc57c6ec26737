/**
 The colour assignment of the currency-details image: each of the three
 price changes of a currency gets a colour code. A missing change is grey;
 the present ones are split into a positive group (strictly above zero) and
 a negative group (zero or below), and within each group the entries get
 the group's three shades in ascending order of their values.
 */
module HtmlImageService {
  import opened Wrappers
  import opened Changes

  /**
   The colour codes the renderer uses, named after their Material Design
   palette entries; `Code` gives the hexadecimal code.
   */
  datatype Color =
    | Grey600
    | Green500 | Green700 | Green800
    | DeepOrange900 | DeepOrange700 | DeepOrange400

  /** Hexadecimal colour code of a colour, as written into the page. */
  function Code(c: Color): (s: string)
    ensures |s| == 7 && s[0] == '#'
    ensures forall i :: 1 <= i < |s| ==> IsHexDigit(s[i])
  {
    match c
    case Grey600 => "#757575"
    case Green500 => "#4CAF50"
    case Green700 => "#388E3C"
    case Green800 => "#2E7D32"
    case DeepOrange900 => "#BF360C"
    case DeepOrange700 => "#E64A19"
    case DeepOrange400 => "#FF7043"
  }

  predicate IsHexDigit(ch: char)
  {
    '0' <= ch <= '9' || 'A' <= ch <= 'F'
  }

  /** Different colours are written with different codes. */
  lemma CodeInjective(a: Color, b: Color)
    requires a != b
    ensures Code(a) != Code(b)
  {
  }

  /** The colour of a missing change. */
  const Missing: Color := Grey600

  /** The shades of the positive and the negative group, for ranks 0, 1 and 2. */
  const PositiveShades: seq<Color> := [Green500, Green700, Green800]
  const NegativeShades: seq<Color> := [DeepOrange900, DeepOrange700, DeepOrange400]

  /** The shade for the entry of the given rank in the positive or negative group. */
  function Shade(positive: bool, rank: nat): Color
    requires rank < 3
  {
    if positive then PositiveShades[rank] else NegativeShades[rank]
  }

  /** Position of a shade within its group's palette; grey has none. */
  function ShadeRank(c: Color): nat
    requires c != Missing
  {
    match c
    case Green500 => 0
    case Green700 => 1
    case Green800 => 2
    case DeepOrange900 => 0
    case DeepOrange700 => 1
    case DeepOrange400 => 2
  }

  /**
   A shade is never grey, it is green exactly for the positive group, and
   its position in the palette is the rank it was chosen for.
   */
  lemma ShadeIsRanked(positive: bool, rank: nat)
    requires rank < 3
    ensures Shade(positive, rank) != Missing
    ensures Shade(positive, rank) in PositiveShades <==> positive
    ensures Shade(positive, rank) in NegativeShades <==> !positive
    ensures ShadeRank(Shade(positive, rank)) == rank
  {
    assert rank == 0 || rank == 1 || rank == 2;
  }

  /**
   The colour map as the template reads it: string keys "change1h",
   "change24h", "change7d" to hexadecimal colour codes.
   */
  function ColorCodes(colors: map<ChangeKey, Color>): (codes: map<string, string>)
    ensures forall k :: k in colors ==> KeyName(k) in codes && codes[KeyName(k)] == Code(colors[k])
    ensures forall name :: name in codes ==> exists k :: k in colors && KeyName(k) == name
  {
    forall j, k | j != k ensures KeyName(j) != KeyName(k) {
      KeyNamesDistinct(j, k);
    }
    map k | k in colors :: KeyName(k) := Code(colors[k])
  }

  // ---------------------------------------------------------------------
  // Specification: the colour every key should get
  // ---------------------------------------------------------------------

  /** The present changes of `d` that are above zero (`positive`) or at most zero (not `positive`). */
  function Group(d: CurrencyDetails, positive: bool): map<ChangeKey, real>
  {
    map k | k in AllKeys && Change(d, k).Some? && (Change(d, k).value > 0.0) == positive :: Change(d, k).value
  }

  /** `m` with the change `c` under key `k` added when it is present and belongs to the group. */
  function AddToGroup(m: map<ChangeKey, real>, positive: bool, k: ChangeKey, c: Option<real>): map<ChangeKey, real>
  {
    if c.Some? && (c.value > 0.0) == positive then m[k := c.value] else m
  }

  /** A group is what sorting the three changes one after the other puts in it. */
  lemma GroupByInsertion(d: CurrencyDetails, positive: bool)
    ensures Group(d, positive) ==
      AddToGroup(AddToGroup(AddToGroup(map[], positive, Change1h, d.change1h), positive, Change24h, d.change24h), positive, Change7d, d.change7d)
  {
    var built := AddToGroup(AddToGroup(AddToGroup(map[], positive, Change1h, d.change1h), positive, Change24h, d.change24h), positive, Change7d, d.change7d);
    forall k ensures k in built <==> k in Group(d, positive) {
      assert k.Change1h? || k.Change24h? || k.Change7d?;
    }
  }

  /** Grey for a missing change, otherwise the shade of its rank within its group. */
  function ExpectedColor(d: CurrencyDetails, k: ChangeKey): Color
  {
    match Change(d, k)
    case None => Missing
    case Some(v) =>
      var g := Group(d, v > 0.0);
      assert k in g;
      RankBelowSize(g, k);
      Shade(v > 0.0, RankIn(g, k))
  }

  /** The grey entries: the keys whose change is missing. */
  function MissingColors(d: CurrencyDetails): map<ChangeKey, Color>
  {
    map k | k in AllKeys && Change(d, k).None? :: Missing
  }

  /** `colors` with key `k` set to grey when its change `c` is missing. */
  function AddMissing(colors: map<ChangeKey, Color>, k: ChangeKey, c: Option<real>): map<ChangeKey, Color>
  {
    if c.None? then colors[k := Missing] else colors
  }

  lemma MissingByInsertion(d: CurrencyDetails)
    ensures MissingColors(d) ==
      AddMissing(AddMissing(AddMissing(map[], Change1h, d.change1h), Change24h, d.change24h), Change7d, d.change7d)
  {
    var built := AddMissing(AddMissing(AddMissing(map[], Change1h, d.change1h), Change24h, d.change24h), Change7d, d.change7d);
    forall k ensures k in built <==> k in MissingColors(d) {
      assert k.Change1h? || k.Change24h? || k.Change7d?;
    }
  }

  function ChangeColors(d: CurrencyDetails): map<ChangeKey, Color>
  {
    map k | k in AllKeys :: ExpectedColor(d, k)
  }

  // ---------------------------------------------------------------------
  // The mutable map handed to getColors
  // ---------------------------------------------------------------------

  /** A mutable map from change key to change value, as the source's `MutableMap<String, BigDecimal>`. */
  class ChangeMap {
    var entries: map<ChangeKey, real>

    constructor ()
      ensures entries == map[]
    {
      entries := map[];
    }

    method Put(k: ChangeKey, v: real)
      modifies this
      ensures entries == old(entries)[k := v]
    {
      entries := entries[k := v];
    }

    method Remove(k: ChangeKey)
      modifies this
      ensures entries == old(entries) - {k}
    {
      entries := entries - {k};
    }
  }

  // ---------------------------------------------------------------------
  // The operations
  // ---------------------------------------------------------------------

  /**
   Kotlin's `minBy` over the entries of `m`, visited in `order`: the first
   entry with the smallest value, or None when no entry is visited.
   */
  function MinBy(m: map<ChangeKey, real>, order: seq<ChangeKey>): (r: Option<ChangeKey>)
    requires forall i, j :: 0 <= i < j < |order| ==> Index(order[i]) < Index(order[j])
    ensures r.None? <==> forall i :: 0 <= i < |order| ==> order[i] !in m
    ensures r.Some? ==> r.value in m && r.value in order
    ensures r.Some? ==> forall i :: 0 <= i < |order| ==> !Precedes(m, order[i], r.value)
  {
    if order == [] then None
    else
      var rest := MinBy(m, order[1..]);
      if order[0] !in m then rest
      else if rest.Some? && m[rest.value] < m[order[0]] then rest
      else Some(order[0])
  }

  /**
   The key of the smallest value in `m`, or None when `m` is empty. Among
   equal values the key visited first wins.
   */
  function GetMinValue(m: map<ChangeKey, real>): (r: Option<ChangeKey>)
    ensures r.None? <==> |m| == 0
    ensures r.Some? ==> r.value in m && RankIn(m, r.value) == 0
  {
    var r := MinBy(m, IterationOrder);
    assert forall k :: k in m ==> IterationOrder[Index(k)] == k;
    assert r.None? ==> m.Keys == {};
    assert r.Some? ==> RankIn(m, r.value) == 0 by {
      if r.Some? {
        RankZeroIffFirst(m, r.value);
      }
    }
    r
  }

  /**
   The key `GetMinValue` picks holds a value no larger than any other in
   the map, and no key visited before it holds the same value.
   */
  lemma GetMinValueIsMinimum(m: map<ChangeKey, real>)
    ensures GetMinValue(m).Some? ==>
      forall k :: k in m ==> m[GetMinValue(m).value] <= m[k]
    ensures GetMinValue(m).Some? ==>
      forall k :: k in m && m[k] == m[GetMinValue(m).value] ==> Index(GetMinValue(m).value) <= Index(k)
  {
    var r := GetMinValue(m);
    if r.Some? {
      RankZeroIffFirst(m, r.value);
      assert forall k :: k in m ==> !Precedes(m, k, r.value);
    }
  }

  /** Every entry of `m0`, and nothing else, gets the shade of its rank. */
  ghost predicate ShadedByRank(m0: map<ChangeKey, real>, positive: bool, colors: map<ChangeKey, Color>)
  {
    && colors.Keys == m0.Keys
    && forall k :: k in colors ==> RankIn(m0, k) < 3 && colors[k] == Shade(positive, RankIn(m0, k))
  }

  /** Of `m0` only the third-ranked entry is left in `rest`, with its value unchanged. */
  ghost predicate OnlyThirdLeft(m0: map<ChangeKey, real>, rest: map<ChangeKey, real>)
  {
    && (forall k :: k in rest <==> k in m0 && RankIn(m0, k) == 2)
    && (forall k :: k in rest ==> rest[k] == m0[k])
  }

  /**
   The four ways `GetColors` can end, one lemma each: the first, second or
   third call of `GetMinValue` finds nothing more to colour, or the third
   call finds a key and colours it without removing it. Each lemma takes
   the keys chosen so far, as `GetMinValue` chose them.
   */
  lemma NoEntries(m0: map<ChangeKey, real>, positive: bool)
    requires |m0| == 0
    ensures ShadedByRank(m0, positive, map[]) && OnlyThirdLeft(m0, m0)
  {
  }

  lemma OneEntry(m0: map<ChangeKey, real>, positive: bool, f: ChangeKey)
    requires f in m0 && RankIn(m0, f) == 0
    requires |m0 - {f}| == 0
    ensures ShadedByRank(m0, positive, map[f := Shade(positive, 0)])
    ensures OnlyThirdLeft(m0, m0 - {f})
  {
    assert m0.Keys == {f} by {
      assert (m0 - {f}).Keys == {};
    }
  }

  lemma TwoEntries(m0: map<ChangeKey, real>, positive: bool, f: ChangeKey, s: ChangeKey)
    requires f in m0 && RankIn(m0, f) == 0
    requires s in m0 - {f} && RankIn(m0 - {f}, s) == 0
    requires |m0 - {f} - {s}| == 0
    ensures ShadedByRank(m0, positive, map[f := Shade(positive, 0), s := Shade(positive, 1)])
    ensures OnlyThirdLeft(m0, m0 - {f} - {s})
  {
    RankAfterRemovingFirst(m0, f, s);
    assert m0.Keys == {f, s} by {
      assert (m0 - {f} - {s}).Keys == {};
    }
  }

  lemma ThreeRanks(m0: map<ChangeKey, real>, f: ChangeKey, s: ChangeKey, t: ChangeKey)
    requires f in m0 && RankIn(m0, f) == 0
    requires s in m0 - {f} && RankIn(m0 - {f}, s) == 0
    requires t in m0 - {f} - {s} && RankIn(m0 - {f} - {s}, t) == 0
    ensures m0.Keys == {f, s, t}
    ensures RankIn(m0, s) == 1 && RankIn(m0, t) == 2
  {
    var m1, m2 := m0 - {f}, m0 - {f} - {s};
    RankAfterRemovingFirst(m0, f, s);
    RankAfterRemovingFirst(m1, s, t);
    RankAfterRemovingFirst(m0, f, t);
    forall k | k in m2 ensures k == t {
      RankAfterRemovingFirst(m1, s, k);
      RankAfterRemovingFirst(m0, f, k);
      RankBelowSize(m0, k);
      if k != t {
        RankInjective(m0, k, t);
      }
    }
    forall k | k in m0 ensures k == f || k == s || k == t {
      if k != f && k != s {
        assert k in m2;
      }
    }
  }

  lemma ThreeEntries(m0: map<ChangeKey, real>, positive: bool, f: ChangeKey, s: ChangeKey, t: ChangeKey)
    requires f in m0 && RankIn(m0, f) == 0
    requires s in m0 - {f} && RankIn(m0 - {f}, s) == 0
    requires t in m0 - {f} - {s} && RankIn(m0 - {f} - {s}, t) == 0
    ensures ShadedByRank(m0, positive, map[f := Shade(positive, 0), s := Shade(positive, 1), t := Shade(positive, 2)])
    ensures OnlyThirdLeft(m0, m0 - {f} - {s})
  {
    ThreeRanks(m0, f, s, t);
    ThreeEntriesShaded(m0, positive, f, s, t);
    ThreeEntriesLeft(m0, f, s, t);
    assert m0 - {f} - {s} == map[t := m0[t]];
  }

  lemma ThreeEntriesShaded(m0: map<ChangeKey, real>, positive: bool, f: ChangeKey, s: ChangeKey, t: ChangeKey)
    requires m0.Keys == {f, s, t} && f != s && s != t && f != t
    requires RankIn(m0, f) == 0 && RankIn(m0, s) == 1 && RankIn(m0, t) == 2
    ensures ShadedByRank(m0, positive, map[f := Shade(positive, 0), s := Shade(positive, 1), t := Shade(positive, 2)])
  {
  }

  lemma ThreeEntriesLeft(m0: map<ChangeKey, real>, f: ChangeKey, s: ChangeKey, t: ChangeKey)
    requires m0.Keys == {f, s, t} && f != s && s != t && f != t
    requires RankIn(m0, f) == 0 && RankIn(m0, s) == 1 && RankIn(m0, t) == 2
    ensures OnlyThirdLeft(m0, map[t := m0[t]])
  {
  }

  /**
   Gives the entries of `m` the shades of the positive or negative group in
   ascending order of their values. The first two entries chosen are removed
   from `m` as they are coloured; the third is left in it.
   */
  method GetColors(m: ChangeMap, positive: bool) returns (colors: map<ChangeKey, Color>)
    modifies m
    ensures ShadedByRank(old(m.entries), positive, colors)
    ensures OnlyThirdLeft(old(m.entries), m.entries)
  {
    ghost var m0 := m.entries;
    colors := map[];

    var min := GetMinValue(m.entries);
    if min.None? {
      NoEntries(m0, positive);
      return;
    }
    colors := colors[min.value := Shade(positive, 0)];
    m.Remove(min.value);

    var middle := GetMinValue(m.entries);
    if middle.None? {
      OneEntry(m0, positive, min.value);
      return;
    }
    colors := colors[middle.value := Shade(positive, 1)];
    m.Remove(middle.value);

    var max := GetMinValue(m.entries);
    if max.None? {
      TwoEntries(m0, positive, min.value, middle.value);
      return;
    }
    colors := colors[max.value := Shade(positive, 2)];
    ThreeEntries(m0, positive, min.value, middle.value, max.value);
  }

  /**
   The grey entries and the two groups cover the three keys without
   overlap, so the two `putAll` merges never overwrite an entry.
   */
  lemma MergeGroups(d: CurrencyDetails, positiveColors: map<ChangeKey, Color>, negativeColors: map<ChangeKey, Color>)
    requires ShadedByRank(Group(d, true), true, positiveColors)
    requires ShadedByRank(Group(d, false), false, negativeColors)
    ensures MissingColors(d).Keys !! positiveColors.Keys
    ensures (MissingColors(d) + positiveColors).Keys !! negativeColors.Keys
    ensures MissingColors(d) + positiveColors + negativeColors == ChangeColors(d)
  {
    var merged := MissingColors(d) + positiveColors + negativeColors;
    forall k | k in AllKeys ensures k in merged && merged[k] == ExpectedColor(d, k) {
      match Change(d, k)
      case None =>
      case Some(v) =>
        if v > 0.0 {
          assert k in Group(d, true);
        } else {
          assert k in Group(d, false);
        }
    }
    forall k | k in merged ensures k in AllKeys {
      assert k.Change1h? || k.Change24h? || k.Change7d?;
    }
    assert merged.Keys == ChangeColors(d).Keys;
  }

  /**
   The colour code of each of the three price changes of `d`: grey when the
   change is missing, otherwise the shade of its rank in its group.
   */
  method GetChangePercentageColor(d: CurrencyDetails) returns (colors: map<ChangeKey, Color>)
    ensures colors == ChangeColors(d)
  {
    var changesPositive := new ChangeMap();
    var changesNegative := new ChangeMap();
    colors := map[];
    ghost var positive0, negative0, colors0 := changesPositive.entries, changesNegative.entries, colors;

    match d.change1h {
      case None =>
        colors := colors[Change1h := Missing];
      case Some(v) =>
        if v > 0.0 {
          changesPositive.Put(Change1h, v);
        } else {
          changesNegative.Put(Change1h, v);
        }
    }
    ghost var positive1, negative1 := changesPositive.entries, changesNegative.entries;
    assert positive1 == AddToGroup(positive0, true, Change1h, d.change1h);
    assert negative1 == AddToGroup(negative0, false, Change1h, d.change1h);
    ghost var colors1 := colors;
    assert colors1 == AddMissing(colors0, Change1h, d.change1h);

    match d.change24h {
      case None =>
        colors := colors[Change24h := Missing];
      case Some(v) =>
        if v > 0.0 {
          changesPositive.Put(Change24h, v);
        } else {
          changesNegative.Put(Change24h, v);
        }
    }
    ghost var positive2, negative2 := changesPositive.entries, changesNegative.entries;
    assert positive2 == AddToGroup(positive1, true, Change24h, d.change24h);
    assert negative2 == AddToGroup(negative1, false, Change24h, d.change24h);
    ghost var colors2 := colors;
    assert colors2 == AddMissing(colors1, Change24h, d.change24h);

    match d.change7d {
      case None =>
        colors := colors[Change7d := Missing];
      case Some(v) =>
        if v > 0.0 {
          changesPositive.Put(Change7d, v);
        } else {
          changesNegative.Put(Change7d, v);
        }
    }
    ghost var positive3, negative3 := changesPositive.entries, changesNegative.entries;
    assert positive3 == AddToGroup(positive2, true, Change7d, d.change7d);
    assert negative3 == AddToGroup(negative2, false, Change7d, d.change7d);
    assert colors == AddMissing(colors2, Change7d, d.change7d);

    MissingByInsertion(d);
    GroupByInsertion(d, true);
    GroupByInsertion(d, false);
    var positiveColors := GetColors(changesPositive, true);
    colors := colors + positiveColors;
    var negativeColors := GetColors(changesNegative, false);
    colors := colors + negativeColors;
    MergeGroups(d, positiveColors, negativeColors);
  }

  // ---------------------------------------------------------------------
  // Properties of the colour assignment
  // ---------------------------------------------------------------------

  /**
   Every key gets exactly one colour: grey exactly when its change is
   missing, a green shade exactly when the change is above zero, and a
   red/orange shade exactly when it is zero or below.
   */
  lemma ColorClass(d: CurrencyDetails, k: ChangeKey)
    ensures k in ChangeColors(d)
    ensures ChangeColors(d)[k] == Missing <==> Change(d, k).None?
    ensures ChangeColors(d)[k] in PositiveShades <==> Change(d, k).Some? && Change(d, k).value > 0.0
    ensures ChangeColors(d)[k] in NegativeShades <==> Change(d, k).Some? && Change(d, k).value <= 0.0
  {
    assert k.Change1h? || k.Change24h? || k.Change7d?;
    match Change(d, k)
    case None =>
    case Some(v) =>
      var g := Group(d, v > 0.0);
      assert k in g;
      RankBelowSize(g, k);
      var r := RankIn(g, k);
      assert r == 0 || r == 1 || r == 2;
  }

  /** The colour of a present change is the shade of its rank within its group. */
  lemma ShadeOfRank(d: CurrencyDetails, k: ChangeKey)
    requires Change(d, k).Some?
    ensures var g := Group(d, Change(d, k).value > 0.0);
      k in g && RankIn(g, k) < |g| && ChangeColors(d)[k] != Missing && ShadeRank(ChangeColors(d)[k]) == RankIn(g, k)
  {
    var g := Group(d, Change(d, k).value > 0.0);
    assert k in g && k in AllKeys;
    RankBelowSize(g, k);
  }

  /**
   Within a group, shade order follows value order: a smaller change gets
   an earlier shade, and an earlier shade never goes to a larger change.
   */
  lemma ShadeOrderFollowsValueOrder(d: CurrencyDetails, a: ChangeKey, b: ChangeKey)
    requires Change(d, a).Some? && Change(d, b).Some?
    requires (Change(d, a).value > 0.0) == (Change(d, b).value > 0.0)
    ensures ChangeColors(d)[a] != Missing && ChangeColors(d)[b] != Missing
    ensures Change(d, a).value < Change(d, b).value ==> ShadeRank(ChangeColors(d)[a]) < ShadeRank(ChangeColors(d)[b])
    ensures ShadeRank(ChangeColors(d)[a]) < ShadeRank(ChangeColors(d)[b]) ==> Change(d, a).value <= Change(d, b).value
  {
    var g := Group(d, Change(d, a).value > 0.0);
    ShadeOfRank(d, a);
    ShadeOfRank(d, b);
    if Precedes(g, a, b) {
      RankMonotone(g, a, b);
    } else if a != b {
      RankMonotone(g, b, a);
    }
  }

  /** No two keys with a present change share a colour. */
  lemma PresentChangesGetDistinctColors(d: CurrencyDetails, a: ChangeKey, b: ChangeKey)
    requires a != b && Change(d, a).Some? && Change(d, b).Some?
    ensures ChangeColors(d)[a] != ChangeColors(d)[b]
  {
    ColorClass(d, a);
    ColorClass(d, b);
    if (Change(d, a).value > 0.0) == (Change(d, b).value > 0.0) {
      var g := Group(d, Change(d, a).value > 0.0);
      ShadeOfRank(d, a);
      ShadeOfRank(d, b);
      RankInjective(g, a, b);
    }
  }

  /**
   The first shade of a group goes to the change that no other change of
   the group comes before: the smallest one, the first visited among equals.
   */
  lemma FirstShadeToSmallest(d: CurrencyDetails, k: ChangeKey)
    requires Change(d, k).Some?
    ensures var g := Group(d, Change(d, k).value > 0.0);
      ChangeColors(d)[k] != Missing && (ShadeRank(ChangeColors(d)[k]) == 0 <==> forall j :: j in g ==> !Precedes(g, j, k))
  {
    var g := Group(d, Change(d, k).value > 0.0);
    ShadeOfRank(d, k);
    RankZeroIffFirst(g, k);
  }

  /** The string map the source returns always holds all three change names. */
  lemma ColorCodesCoverAllNames(d: CurrencyDetails)
    ensures ColorCodes(ChangeColors(d)).Keys == {"change1h", "change24h", "change7d"}
  {
    var codes := ColorCodes(ChangeColors(d));
    ColorClass(d, Change1h);
    ColorClass(d, Change24h);
    ColorClass(d, Change7d);
    assert KeyName(Change1h) in codes && KeyName(Change24h) in codes && KeyName(Change7d) in codes;
    forall name | name in codes ensures name in {"change1h", "change24h", "change7d"} {
      var k :| k in ChangeColors(d) && KeyName(k) == name;
      assert k.Change1h? || k.Change24h? || k.Change7d?;
    }
  }
}
