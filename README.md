# labelImg `libs/utils.py` helpers in Dafny

A model of the three self-contained helpers of labelImg's `libs/utils.py` that carry
logic of their own, with proofs of what they promise:

- `natural_sort(list, key)` sorts a list in place by an alphanumeric key.
  The key cuts `key(item)` with `re.split('([0-9]+)', ...)` into text runs
  and digit runs, and turns every digit run into the integer it spells, so
  "item2" sorts before "item10". Python's `list.sort` is stable.
- `format_shortcut(text)` shows a shortcut such as "Ctrl+S" as
  `<b>Ctrl</b>+<b>S</b>`, splitting at the first '+'.
- `generate_color_by_text(text)` turns the first three bytes of the text's
  SHA-256 digest into a label colour. Each byte is remapped linearly into
  [50, 200]. A nearly grey colour has its largest channel raised by a fifth
  and the others lowered by a fifth, each truncated to an integer and
  clamped to [50, 200]. The alpha is always 80.

Modules:

- `Wrappers`: `Option`.
- `Lexicographic`: the lexicographic order on sequences induced by an order on
  their elements, and proofs that it is a strict total order whenever the
  element order is.
- `AlphanumKey`: the split, `convert`, the key, and Python's comparison of keys.
- `StableSort`: a stable sort by key as a specification function (`SortByKey`,
  stable insertion) and an in-place insertion sort on an array proved to
  compute it. The permutation, sortedness, stability and uniqueness facts
  are proved for any strict total order on keys.
- `NaturalSort`: `natural_sort` itself, the stable sort under the
  alphanumeric key.
- `Shortcut`: `format_shortcut`, returning `None` where Python raises.
- `Color`: `clamp_range`, `boost_saturation` and the colour built from the
  digest bytes.

## Model

| member | source | states |
|---|---|---|
| AlphanumKey.Split | libs/utils.py:146 | the list `re.split('([0-9]+)', s)` returns always has an odd number of runs |
| AlphanumKey.SplitWellFormed | libs/utils.py:146 | the split alternates digit-free text (even positions) with non-empty runs of ASCII digits (odd positions), and no empty text run sits between two digit runs |
| AlphanumKey.SplitConcat | libs/utils.py:146 | joining the runs of the split gives back the string |
| AlphanumKey.SplitUnique | libs/utils.py:146 | the split is the only list of runs with that alternation that joins to the string, so it is fixed by those two properties |
| AlphanumKey.LeadingZero | libs/utils.py:145 | `int()` of a digit string ignores a leading zero |
| AlphanumKey.DigitsValue | libs/utils.py:145 | definition: `int(text)` of a run of ASCII digits, read left to right in base ten |
| AlphanumKey.Convert | libs/utils.py:145 | `convert` gives a number exactly when the run is a non-empty string of digits, and the text otherwise |
| AlphanumKey.SplitKey | libs/utils.py:144-146 | the key has an odd number of pieces, numbers at the odd positions and text at the even ones |
| AlphanumKey.SplitKeyPieces | libs/utils.py:145-146 | each piece of the key is the run at the same position of the split: text runs unchanged, digit runs as the number they spell |
| AlphanumKey.KeysComparable | libs/utils.py:145-146 | two keys hold pieces of the same kind at every position they share |
| AlphanumKey.StrLess | libs/utils.py:148 | definition: Python's `<` on `str`, lexicographic by code point |
| AlphanumKey.PieceLess | libs/utils.py:148 | definition: Python's `<` on two key pieces: strings as strings, integers numerically, text before number in the mixed case Python never reaches here |
| AlphanumKey.KeyLess | libs/utils.py:148 | definition: Python's `<` on two key lists, lexicographic over pieces |
| AlphanumKey.KeyCompareSameKind | libs/utils.py:148 | comparing two keys only ever compares number with number (numerically) or text with text (by code point), never text with number |
| AlphanumKey.PieceLessStrictTotal | libs/utils.py:148 | Python's `<` on key pieces is a strict total order |
| AlphanumKey.KeyLessStrictTotal | libs/utils.py:148 | Python's `<` on keys, lexicographic over pieces, is a strict total order |
| AlphanumKey.KeyLessIrreflexive | libs/utils.py:148 | no key sorts before itself |
| AlphanumKey.OneNumberKey | libs/utils.py:144-146 | a string with one digit run between two digit-free texts has the key [text, number, text] |
| AlphanumKey.SmallerNumberFirst | libs/utils.py:144-148 | with the same text around one digit run, the smaller number sorts first |
| AlphanumKey.ItemTwoBeforeItemTen | libs/utils.py:144-148 | "item2" sorts before "item10" |
| AlphanumKey.ItemOneBeforeItemTen | libs/utils.py:144-148 | "item1" sorts before "item10" |
| AlphanumKey.ItemOneBeforeItemTwo | libs/utils.py:144-148 | "item1" sorts before "item2" |
| AlphanumKey.ItemTenBeforeItemTwoAsText | libs/utils.py:142 | as plain strings "item10" sorts before "item2", the order the key exists to avoid |
| AlphanumKey.LeadingZerosEqualKeys | libs/utils.py:145-146 | "a07" and "a7" have equal keys |
| Lexicographic.LexIrreflexive | libs/utils.py:148 | the lexicographic order is irreflexive when the element order is |
| Lexicographic.LexTransitive | libs/utils.py:148 | the lexicographic order is transitive when the element order is a strict total order |
| Lexicographic.LexTotal | libs/utils.py:148 | two different sequences are always ordered one way or the other |
| StableSort.Insert | libs/utils.py:148 | definition: one step of the stable sort, placing an item after every item whose key is not greater than its own |
| StableSort.SortByKey | libs/utils.py:148 | definition: the list `list.sort(key=...)` leaves, items inserted stably one by one |
| StableSort.InsertPermutes | libs/utils.py:148 | inserting adds exactly the one item |
| StableSort.SortByKeyPermutes | libs/utils.py:148 | the sorted list is a permutation of the input |
| StableSort.SortByKeySnoc | libs/utils.py:148 | sorting a list with one more item at the end inserts that item into the sorted rest |
| StableSort.InsertSorted | libs/utils.py:148 | inserting into a sorted list keeps it sorted |
| StableSort.SortByKeySorted | libs/utils.py:148 | the sorted list is non-decreasing by key |
| StableSort.FilterAppend | libs/utils.py:148 | the items with a given key of a concatenation are those of each part, in order |
| StableSort.InsertFilter | libs/utils.py:148 | inserting keeps the order of the items with equal keys and puts the new item after them |
| StableSort.SortByKeyStable | libs/utils.py:148 | items with equal keys keep their original relative order |
| StableSort.FilterWitness | libs/utils.py:148 | a key with items in the list is the key of some item of it |
| StableSort.SameLast | libs/utils.py:148 | two sorted rearrangements with the same per-key order end with the same item |
| StableSort.SortedFiltersEqual | libs/utils.py:148 | two sorted lists with the same per-key order are equal |
| StableSort.SortedStableUnique | libs/utils.py:148 | every sorted, stable rearrangement of a list is `SortByKey` of it: all stable sorts agree |
| StableSort.SortedUnchanged | libs/utils.py:148 | sorting an already sorted list, the empty list among them, changes nothing |
| StableSort.SortIdempotent | libs/utils.py:148 | sorting twice is sorting once |
| StableSort.SortDescendingThree | libs/utils.py:148 | three items with strictly decreasing keys come out reversed |
| StableSort.SortEqualTwo | libs/utils.py:148 | two items with equal keys keep their order |
| StableSort.InsertAt | libs/utils.py:148 | an item lands right after the last item it does not sort before |
| StableSort.InsertLast | libs/utils.py:148 | moving `a[i]` left into the prefix leaves the prefix with that item inserted, and nothing past `i` changes |
| StableSort.Sort | libs/utils.py:148 | the array ends up holding `SortByKey` of its old contents |
| NaturalSort.AlphanumRank | libs/utils.py:144-146 | definition: `get_alphanum_key_func(key)`, the alphanumeric key of `key(item)` |
| NaturalSort.NaturalSorted | libs/utils.py:140-148 | definition: the list `natural_sort(list, key)` leaves, the stable sort under the alphanumeric key |
| NaturalSort.NaturalSortedSpec | libs/utils.py:140-148 | the result of `natural_sort` is a permutation of the list, non-decreasing by the alphanumeric key, and stable |
| NaturalSort.NaturalSortedUnique | libs/utils.py:140-148 | any sorted, stable rearrangement is the result of `natural_sort` |
| NaturalSort.NaturalSortedUnchanged | libs/utils.py:140-148 | an already sorted list, the empty list among them, comes back unchanged |
| NaturalSort.NaturalSortedIdempotent | libs/utils.py:140-148 | sorting twice gives the same list as sorting once |
| NaturalSort.Sort | libs/utils.py:140-148 | sorting in place leaves the array as `natural_sort` specifies: a permutation of the old contents, sorted by key and stable |
| NaturalSort.ItemsExample | libs/utils.py:140-148 | ["item10", "item2", "item1"] sorts to ["item1", "item2", "item10"] |
| NaturalSort.EqualKeysKeepOrder | libs/utils.py:140-148 | "a7" and "a07" stay in whichever order they came in |
| Shortcut.FirstPlus | libs/utils.py:78 | the cut point is the first '+' of the text, and there is none exactly when the text has no '+' |
| Shortcut.FormatShortcut | libs/utils.py:77-79 | the formatting fails exactly when the text has no '+' |
| Shortcut.FormatShortcutParts | libs/utils.py:77-79 | for a modifier without '+' and any key, the text `mod+key` formats as `<b>mod</b>+<b>key</b>` |
| Shortcut.CtrlS | libs/utils.py:77-79 | "Ctrl+S" formats as `<b>Ctrl</b>+<b>S</b>` |
| Shortcut.CtrlPlus | libs/utils.py:77-79 | "Ctrl++" formats as `<b>Ctrl</b>+<b>+</b>`: a second '+' belongs to the key |
| Color.ClampRange | libs/utils.py:101-103 | the remapped value is between 50 and 200, 0 goes to 50, 255 to 200, and it is the floor of 50 + v·150/255 |
| Color.ClampRangeMonotone | libs/utils.py:101-103 | the remap never sends a smaller byte to a larger value |
| Color.Max3 | libs/utils.py:111 | `max(r, g, b)` is one of the three and no smaller than any |
| Color.Min3 | libs/utils.py:112 | `min(r, g, b)` is one of the three and no larger than any |
| Color.ClampChannel | libs/utils.py:120-122 | `max(50, min(x, 200))` lies in [50, 200] and leaves values already there unchanged |
| Color.TruncScale | libs/utils.py:116-118 | definition: `int(x * 1.2)` and `int(x * 0.8)` as x·6/5 and x·4/5 truncated toward zero |
| Color.BoostChannel | libs/utils.py:116-122 | definition: one channel of the grey case, scaled by 1.2 when it is the maximum and by 0.8 otherwise, then clamped to [50, 200] |
| Color.BoostSaturation | libs/utils.py:110-123 | a colour whose max - min is at least 40 is returned unchanged; a greyer one comes back with every channel in [50, 200] |
| Color.BoostChannelDirection | libs/utils.py:116-122 | in the grey case a channel equal to the maximum never goes down and any other never goes up |
| Color.BoostWidensSpread | libs/utils.py:110-122 | in the grey case each channel moves in its direction, so max - min never shrinks |
| Color.EqualChannelsStayGrey | libs/utils.py:110-122 | three equal channels are all maxima, all move up together, and the colour stays grey |
| Color.ColorFromDigest | libs/utils.py:91-128 | every channel of the colour is in [50, 200] and the alpha is 80 |
| Color.ColorFromFirstThreeBytes | libs/utils.py:96-98 | the colour depends only on the first three digest bytes |
| Color.ColorfulUnchanged | libs/utils.py:105-125 | when the remapped bytes are at least 40 apart, they are the colour's channels unchanged |

## Left out

- The Qt helpers `new_icon`, `new_button`, `new_action` and `add_actions` only build Qt objects and connect signals.
- `label_validator` only wraps a Qt regular-expression validator.
- `Struct` is an attribute bag with no behaviour.
- `distance` is a floating-point square root over Qt points.
- `have_qstring`, `util_qt_strlistclass` and `trimmed` depend on the Python and Qt versions.
- SHA-256 is a library call: `ColorFromDigest` takes the digest bytes as its input. The digest always has 32 bytes; the model only needs three.
- `generate_color_by_text_` (with a trailing underscore) is a separate, older function that nothing in libs/utils.py calls.
- Color.ClampRange: the source computes `50 + (v / 255) * 150` in floating point and truncates it. The model takes the exact floor, assuming the rounding of the float expression never crosses an integer.
- Color.BoostSaturation: the source multiplies by the floats 1.2 and 0.8. The model takes the exact truncation of x·6/5 and x·4/5, with the same assumption about rounding.
- AlphanumKey.Convert: Python's `str.isdigit()` also holds for non-ASCII digits that `[0-9]` does not match. A non-empty run made only of such characters would be passed to `int()`, which returns a number for some of them (such as '٣') and raises ValueError for others (such as '²'); a run that also holds a non-digit, such as "a٣", stays text. The model's digits are '0'..'9' only, so it covers strings without other digit characters: for '٣' the model keeps the text "٣" where Python's key holds the number 3.
- AlphanumKey.DigitsValue: the model's `int()` is unbounded, while CPython (3.11 on, and the 3.7-3.10 security releases) refuses with ValueError to convert a digit run longer than its string-conversion limit (4300 digits by default), so `natural_sort` raises on such a key where the model sorts.
- AlphanumKey.PieceLess: Python raises TypeError when it compares a string with a number. The model orders text before numbers instead, and `KeyCompareSameKind` shows that this case never decides a comparison.
- StableSort.Sort: Python sorts with Timsort; the model sorts by insertion. `SortedStableUnique` shows that every stable sort gives the same result. The model has no `list.sort` exception handling and no key caching, since within the model's alphabet, for a total and side-effect-free `key` (modelled as a function `T -> string`), computing the sort key cannot fail for digit runs within the interpreter's `int()` length limit.
- Shortcut.FormatShortcut: where Python raises ValueError for text without '+', the model returns `None`.
- The comment next to the alpha value at libs/utils.py:127 says 120, but the code passes 80; the model follows the code.
