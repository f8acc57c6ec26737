# Colour assignment for the percentage changes of a crypto currency

This project models, in Dafny, how the image renderer of a Telegram bot
for crypto-currency prices picks a colour for each of the three
percentage changes it shows (last hour, last 24 hours, last 7 days).

- A change that is missing (`null`) is painted grey (`#757575`).
- The changes above zero form the positive group, all the others (zero
  included) the negative group.
- Within a group the changes are coloured in ascending order of their
  values: the smallest positive change gets `#4CAF50`, the next
  `#388E3C`, the largest `#2E7D32`; the smallest negative change gets
  `#BF360C`, the next `#E64A19`, the largest `#FF7043`.
- Ties are broken by the order in which the group map was filled
  (1h, 24h, 7d), because Kotlin's `mutableMapOf` keeps insertion order
  and `minBy` returns the first smallest entry.

Files:

- `wrappers.dfy` — `Option`, standing in for Kotlin's nullable values.
- `changes.dfy` — the three change keys (`ChangeKey`, with their string
  names `KeyName`), the iteration order, the part of `CurrencyDetails`
  the colouring reads, and the rank of a key in a group: the number of
  keys that come before it (smaller value, or equal value and filled
  earlier), with the lemmas about ranks.
- `html_image_service.dfy` — the colours, the specification
  `ChangeColors` (every key mapped to grey or to the shade of its rank
  in its group), the mutable group map `ChangeMap`, the three
  operations `GetMinValue`, `GetColors` and `GetChangePercentageColor`,
  and lemmas about what the specification promises.

`GetMinValue` is proved to return a key of rank 0 (nothing in the map
comes before it). `GetColors` keeps the source's form: it takes a
mutable map, picks the minimum, records its colour and removes it; it
does so for the first and the second minimum, and the third minimum is
coloured but stays in the map. Its postcondition says that every key of
the original map got the shade of its rank, and that only the
third-ranked key (if any) is left in the map afterwards.
`GetChangePercentageColor` fills the two group maps and the grey entries
step by step and merges the results like the two `putAll` calls; it is
proved equal to the specification `ChangeColors`.

The result maps are keyed by `ChangeKey` and hold a `Color`;
`ColorCodes` turns such a map into the string-to-string map the source
returns, and `KeyNamesDistinct` shows that no two keys collide there.

## Model

| member | source | states |
|---|---|---|
| HtmlImageService.MinBy | src/main/kotlin/at/chaoticbits/render/HtmlImageService.kt:162 | `minBy` over the entries in iteration order returns nothing exactly when no visited key is in the map; otherwise a visited key of the map that no visited key comes before (smaller value, or equal value and visited earlier) |
| HtmlImageService.GetMinValue | src/main/kotlin/at/chaoticbits/render/HtmlImageService.kt:160-166 | returns null exactly for an empty map; otherwise a key of the map whose rank is 0 |
| HtmlImageService.GetMinValueIsMinimum | src/main/kotlin/at/chaoticbits/render/HtmlImageService.kt:160-166 | the key returned holds a value no larger than any other in the map, and among equal values it is the first in insertion order |
| HtmlImageService.ChangeMap.Put | src/main/kotlin/at/chaoticbits/render/HtmlImageService.kt:97 | storing a change in a group map sets that key and changes nothing else |
| HtmlImageService.ChangeMap.Remove | src/main/kotlin/at/chaoticbits/render/HtmlImageService.kt:142 | `map.remove` drops exactly that key and changes nothing else |
| HtmlImageService.GetColors | src/main/kotlin/at/chaoticbits/render/HtmlImageService.kt:136-151 | every key of the group map gets the shade of its rank (first, second, third palette entry for the positive or negative flag), no other key gets a colour, and afterwards the map holds only the third-ranked entry, if there was one |
| HtmlImageService.Code | src/main/kotlin/at/chaoticbits/render/HtmlImageService.kt:94-149 | every colour is written as `#` followed by six upper-case hexadecimal digits |
| HtmlImageService.CodeInjective | src/main/kotlin/at/chaoticbits/render/HtmlImageService.kt:94-149 | the seven colour codes are pairwise different, so distinct colours stay distinct in the string map |
| HtmlImageService.ShadeIsRanked | src/main/kotlin/at/chaoticbits/render/HtmlImageService.kt:141-149 | the colour picked for the first, second, third minimum is never grey, is green exactly when the positive flag is set, and sits at that position of its palette |
| HtmlImageService.ChangeMap.constructor | src/main/kotlin/at/chaoticbits/render/HtmlImageService.kt:88-89 | a new group map is empty |
| HtmlImageService.NoEntries | src/main/kotlin/at/chaoticbits/render/HtmlImageService.kt:140 | on an empty map the first lookup finds nothing, no key is coloured and the map is left as it was |
| HtmlImageService.OneEntry | src/main/kotlin/at/chaoticbits/render/HtmlImageService.kt:140-144 | when the map empties after the first removal, the single key got the first shade and nothing is left |
| HtmlImageService.TwoEntries | src/main/kotlin/at/chaoticbits/render/HtmlImageService.kt:140-148 | when the map empties after the second removal, the smaller key got the first shade, the other the second, and nothing is left |
| HtmlImageService.ThreeEntries | src/main/kotlin/at/chaoticbits/render/HtmlImageService.kt:140-150 | with three entries the three successive minimums get the first, second and third shade, and only the third stays in the map |
| HtmlImageService.ThreeRanks | src/main/kotlin/at/chaoticbits/render/HtmlImageService.kt:140-150 | the successive minimums of a three-entry map have ranks 0, 1 and 2 in the original map and are all of its keys |
| HtmlImageService.GroupByInsertion | src/main/kotlin/at/chaoticbits/render/HtmlImageService.kt:93-118 | filling a group map change by change yields exactly the present changes on that side of zero |
| HtmlImageService.MissingByInsertion | src/main/kotlin/at/chaoticbits/render/HtmlImageService.kt:93-112 | the grey entries written change by change are exactly the missing changes |
| HtmlImageService.MergeGroups | src/main/kotlin/at/chaoticbits/render/HtmlImageService.kt:121-122 | the grey keys and the two groups' keys are pairwise disjoint, so neither `putAll` overwrites anything, and the merge is the full colour assignment |
| HtmlImageService.GetChangePercentageColor | src/main/kotlin/at/chaoticbits/render/HtmlImageService.kt:85-125 | the returned map gives every change its specified colour: grey when missing, otherwise the shade of its rank in its group |
| HtmlImageService.ColorCodes | src/main/kotlin/at/chaoticbits/render/HtmlImageService.kt:91-94 | the string map has the key name of every coloured change with its colour code, and no other names |
| HtmlImageService.ColorCodesCoverAllNames | src/main/kotlin/at/chaoticbits/render/HtmlImageService.kt:85-124 | the returned string map always holds exactly the names "change1h", "change24h" and "change7d" |
| HtmlImageService.ColorClass | src/main/kotlin/at/chaoticbits/render/HtmlImageService.kt:93-122 | every change is coloured; grey exactly when missing, a green shade exactly when above zero, a red/orange shade exactly when zero or below |
| HtmlImageService.ShadeOfRank | src/main/kotlin/at/chaoticbits/render/HtmlImageService.kt:136-150 | a present change's shade position equals its rank in its group, which is below the group's size |
| HtmlImageService.ShadeOrderFollowsValueOrder | src/main/kotlin/at/chaoticbits/render/HtmlImageService.kt:136-150 | within a group a strictly smaller change gets an earlier shade, and an earlier shade never goes to a larger change |
| HtmlImageService.PresentChangesGetDistinctColors | src/main/kotlin/at/chaoticbits/render/HtmlImageService.kt:136-150 | two different present changes never share a colour |
| HtmlImageService.FirstShadeToSmallest | src/main/kotlin/at/chaoticbits/render/HtmlImageService.kt:140-141 | a present change gets its group's first shade exactly when no change of its group comes before it |
| Changes.KeyNamesDistinct | src/main/kotlin/at/chaoticbits/render/HtmlImageService.kt:94-112 | the names "change1h", "change24h", "change7d" are pairwise different |
| Changes.RankBelowSize | src/main/kotlin/at/chaoticbits/render/HtmlImageService.kt:140-150 | a key's rank is below the size of its map, which is at most three |
| Changes.RankMonotone | src/main/kotlin/at/chaoticbits/render/HtmlImageService.kt:140-150 | a key that comes before another has a smaller rank |
| Changes.RankInjective | src/main/kotlin/at/chaoticbits/render/HtmlImageService.kt:140-150 | different keys of a map have different ranks |
| Changes.RankZeroIffFirst | src/main/kotlin/at/chaoticbits/render/HtmlImageService.kt:160-166 | rank 0 holds exactly for a key that no key of the map comes before |
| Changes.RankAfterRemovingFirst | src/main/kotlin/at/chaoticbits/render/HtmlImageService.kt:142 | removing the rank-0 key lowers every other key's rank by one |

## Left out

- `generateCryptoDetailsImage` and the `init` block of `HtmlImageService`: template loading, HTML rendering and PNG output are I/O.
- The bot commands, the scheduler, the market-data client and its cache are not part of this model; only the colour assignment is.
- `CurrencyDetails` fields other than the three percentage changes are not read by the colouring and are left out.
- `BigDecimal` is modelled as `real`; the comparisons the source makes (`> ZERO`, `minBy` on values) are exact in both.
- `GetChangePercentageColor`: returns a map keyed by `ChangeKey` holding a `Color`, rather than the source's string map; `ColorCodes` gives the string form.
- `HashMap` iteration order of the result maps is not modelled; the result is only ever read by key.
- Kotlin's `minBy` is modelled only for the three-key iteration order the group maps can have; a general `Iterable` is not modelled.
