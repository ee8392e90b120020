# map-players: a verified model of the name-reconciliation core

`map-players.py` gives every local football player a photo code taken from
the Fantasy Premier League feed. It matches player names and then copies
the codes onto the UI season-card records. This project models that core
in Dafny and proves what it does:

- **Normalisation** (`normalize`, lines 7-16). The steps are lower-casing,
  turning `-` into a blank, NFKD, dropping combining marks, deleting what is
  neither `\w` nor `\s`, collapsing whitespace runs and stripping. This is
  module `Normalizer`, over an `Alphabet`. An alphabet holds the
  one-character Unicode facts the script consults: `str.lower`, NFKD,
  `unicodedata.combining`, `\w` and `\s`. Module `Latin1` is a concrete
  alphabet covering ASCII and the Latin-1 letters.
- **The lookup index** (lines 46-55). Each feed record writes three keys
  into an insertion-ordered `dict`: the normalised full name, web name and
  surname. Module `OrderedDict` models Python's `dict`: re-assigning a key
  keeps its position. Module `LookupIndex` holds the index itself, and
  `BuildIndex` is the build loop.
- **The match cascade** (lines 63-85, with `best_fuzzy_match` at lines
  23-32). The tiers are tried in order: the exact key, then the first key
  in insertion order that contains the name or is contained in it, then
  the earliest most similar key. The fuzzy tier accepts only a score of at
  least 0.86. This is module `Resolver`: the function `Resolve` specifies
  the cascade, and the methods `ContainmentMatch` and `BestFuzzyMatch` are
  its loops.
- **The reconciliation loop** (lines 57-85). It updates the local players
  in place and counts `matches` and `fuzzy_matches`. This is module
  `Reconcile`, over an `array` of player records.
- **The UI propagation join** (lines 98-104). It builds `core_map` and cuts
  each UI id at its first `-`. It copies codes in place and counts
  `synced`. This is module `Propagate`.
- **The whole run without its I/O** (lines 46-104). This is module
  `MapPlayers`, together with the end-to-end example: feed record Mohamed
  Salah (code 101) and local player "Mo Salah".

The fuzzy score, difflib's `SequenceMatcher(None, a, b).ratio()`, is a
parameter `ratio` with values in [0, 1]. `Similarity` wraps it exactly as
line 20 does. The index and reconciliation operations take the normaliser
as a parameter `norm`. `MapPlayers.Run` instantiates it with
`Norm(A) = s => Normalize(A, s)`.

Idempotence of `normalize` does not hold over full Unicode: lower-casing
runs before NFKD, and NFKD can produce upper-case letters. It is therefore
proved only for alphabets meeting `Normalizer.Stable`. `Latin1.Table` is
proved to be one.

In the end-to-end example, the feed record Mohamed Salah (web name
"Salah") writes the keys "mohamed salah" and then "salah". The local name
"Mo Salah" normalises to "mo salah", which is not a key and does not
overlap "mohamed salah". The key "salah" is contained in it, so the
containment tier gives code 101, with one match and no fuzzy match.
`MapPlayers.SalahExample` proves this.

## Model

| member | source | states |
|---|---|---|
| Normalizer.NormalizeEmpty | map-players.py:9-10 | An empty name normalises to `""`. |
| Normalizer.SkipSpace | map-players.py:15 | The result is a suffix of the input with no leading whitespace; leading whitespace, if any, is removed. |
| Normalizer.TrimEnd | map-players.py:15 | The result is a prefix of the input with no trailing whitespace. |
| Normalizer.CollapseWhitespace | map-players.py:15 | Empty only for empty input; the first character is a blank exactly where the input starts with whitespace. |
| Normalizer.CollapseShape | map-players.py:15 | After collapsing, every whitespace character is a blank, no two whitespace characters are adjacent, and every other character comes from the input. |
| Normalizer.StripSlice | map-players.py:15 | `strip()` returns a contiguous slice of its argument with no leading or trailing whitespace. |
| Normalizer.StripKeeps | map-players.py:15 | Every character of a stripped text occurs in the text. |
| Normalizer.SkipSpaceDropsSpace | map-players.py:15 | Everything `strip()` removes from the front is whitespace. |
| Normalizer.TrimEndDropsSpace | map-players.py:15 | Everything `strip()` removes from the back is whitespace. |
| Normalizer.CollapseKeepsWords | map-players.py:15 | The collapse removes or replaces only whitespace: the non-whitespace characters survive, all of them and in order. |
| Normalizer.SkipSpaceKeepsWords | map-players.py:15 | Removing leading whitespace keeps every non-whitespace character, in order. |
| Normalizer.TrimEndKeepsWords | map-players.py:15 | Removing trailing whitespace keeps every non-whitespace character, in order. |
| Normalizer.StripKeepsWords | map-players.py:15 | `strip()` removes only whitespace: the non-whitespace characters survive, all of them and in order. |
| Normalizer.NormalizeKeepsWords | map-players.py:11-15 | The non-whitespace characters of a normalised name are exactly those of its cleaned text, in order. |
| Normalizer.SkipSpaceRun | map-players.py:15 | A leading whitespace run is removed up to the first non-whitespace character and no further. |
| Normalizer.TrimEndRun | map-players.py:15 | A trailing whitespace run is removed back to the last non-whitespace character and no further. |
| Normalizer.CollapseRun | map-players.py:15 | A whitespace run before a word becomes one blank. |
| Normalizer.CollapseWord | map-players.py:15 | A word without whitespace passes through the collapse unchanged. |
| Normalizer.CollapseSpaces | map-players.py:15 | A text made only of whitespace collapses to nothing or to one blank. |
| Normalizer.CollapseTwoWords | map-players.py:15 | Two words separated by any whitespace run collapse to the words joined by one blank. |
| Normalizer.StripPadded | map-players.py:15 | `strip()` of a word padded with whitespace runs is the word. |
| Normalizer.OneWordCollapse | map-players.py:15 | A word with any whitespace around it becomes the word. |
| Normalizer.TwoWordsCollapse | map-players.py:15 | Two words with any whitespace around and between them become the words joined by one blank. |
| Normalizer.NormalizeOneWord | map-players.py:7-16 | A name whose cleaned text is a whitespace-padded word normalises to the word. |
| Normalizer.NormalizeTwoWords | map-players.py:7-16 | A name whose cleaned text is two words with whitespace around and between them normalises to the words joined by one blank. |
| Normalizer.WordsAreWords | map-players.py:15 | The reference split `Words` (Python's `s.split()`) yields only non-empty, whitespace-free words. |
| Normalizer.CollapseTrimIsJoin | map-players.py:15 | On text that starts with a word, collapsing and trimming the end gives its words joined by single blanks. |
| Normalizer.StripCollapseIsJoin | map-players.py:15 | For every text, `re.sub(r'\s+', ' ', s).strip()` equals the independent reference `" ".join(s.split())`. |
| Normalizer.NormalizeIsJoinedWords | map-players.py:7-16 | A normalised name is exactly the words of its cleaned text joined by single blanks. This fixes the word boundaries as well as the characters. |
| Normalizer.CollapseKeepsTidy | map-players.py:15 | Text whose whitespace is single blanks is left unchanged by the collapse. |
| Normalizer.NormalizeIsTidy | map-players.py:11-15 | A normalised name has no leading or trailing whitespace, no two adjacent whitespace characters, and only blanks as whitespace. |
| Normalizer.NormalizeOrigin | map-players.py:11-15 | Every non-blank character of a normalised name is `\w`, not `\s`, not combining, and comes from lower-casing, hyphen replacement and NFKD of some character of the raw name. |
| Normalizer.CleanedOrigin | map-players.py:11-14 | The same origin property for the characters the character-wise steps keep. |
| Normalizer.NormalizeDropsHyphens | map-players.py:11-14 | A normalised name contains no `-`, for any alphabet where `-` is neither `\w` nor `\s`. |
| Normalizer.NormalizeOfTidyCleaned | map-players.py:15 | Whitespace handling leaves already-tidy cleaned text unchanged. |
| Normalizer.SpacelessIsTidy | map-players.py:15 | Text without whitespace is tidy. |
| Normalizer.TwoWordsAreTidy | map-players.py:15 | Two whitespace-free words joined by one blank are tidy. |
| Normalizer.CleanedAppend | map-players.py:11-14 | The character-wise steps distribute over concatenation. |
| Normalizer.SameCleaningSameName | map-players.py:11-15 | Two characters that clean to the same text can replace each other anywhere in a name without changing its normal form. |
| Normalizer.HyphenIsSeparator | map-players.py:11 | `x-y` and `x y` normalise alike: a hyphen separates words as a blank does. |
| Normalizer.PunctuationIsDeleted | map-players.py:14 | A punctuation character that lower-casing and NFKD leave alone (not `-`, neither `\w` nor `\s`) is deleted outright: `x p y` normalises as `x y` joined directly. |
| Normalizer.NormalizeIsCanonical | map-players.py:7-16 | Over a stable alphabet, a normalised name is tidy and made of blanks and characters every step leaves alone. |
| Normalizer.NormalizeFixesCanonical | map-players.py:7-16 | Over a stable alphabet, normalising a canonical name returns it unchanged. |
| Normalizer.NormalizeIdempotent | map-players.py:7-16 | Over a stable alphabet, normalising twice is the same as normalising once. |
| Latin1.TableIsStable | map-players.py:11-14 | The Latin-1 alphabet is stable, so idempotence holds for it. |
| Latin1.AsciiCharIsKept | map-players.py:11-12 | An ASCII character lowers to one character that NFKD leaves alone and that is not upper-case. |
| Latin1.AsciiNormalizesToWordsAndBlanks | map-players.py:11-15 | Over ASCII input, a normalised name contains only `[a-z0-9_ ]`. |
| Latin1.NormalizeIdempotentLatin1 | map-players.py:7-16 | Normalisation over the Latin-1 alphabet, and so over ASCII, is idempotent. |
| Latin1.CleanedOfLowered | map-players.py:11-14 | Text that lower-cases to lower-case letters and blanks passes the remaining character-wise steps unchanged. |
| Latin1.AccentDecomposes | map-players.py:11-12 | Lower-casing and NFKD turn an accented Latin-1 letter into its base letter and one combining mark. |
| Latin1.MarkIsStripped | map-players.py:13-14 | Dropping combining marks turns a base letter followed by a mark into the letter. |
| Latin1.AccentedCleansToBase | map-players.py:11-14 | An accented letter, upper- or lower-case, cleans to its lower-case base letter. |
| Latin1.LetterCleansToItself | map-players.py:11-14 | A lower-case ASCII letter cleans to itself. |
| Latin1.AccentIsStripped | map-players.py:12-13 | Replacing an accented letter by its base letter anywhere in a name leaves its normal form unchanged. |
| Latin1.LowerWordsAreTidy | map-players.py:15 | Lower-case words, alone or two joined by a blank, are tidy. |
| Latin1.NormalizesToLowerWord | map-players.py:7-16 | A name that lower-cases to a non-empty lower-case word normalises to that word. |
| Latin1.NormalizesToLowerWords | map-players.py:7-16 | Two such names joined by a blank normalise to the two words joined by a blank. |
| Latin1.NormalizesToPaddedWord | map-players.py:7-16 | A name that is blanks followed by a word normalises to the lower-cased word. |
| Latin1.NormalizesToSpacedWords | map-players.py:7-16 | Two words separated by several blanks normalise to the lower-cased words joined by one blank. |
| Latin1.LettersExample | map-players.py:11 | `"OBrien"` normalises to `"obrien"`. |
| Latin1.SmithJonesExample | map-players.py:11-15 | `"Smith Jones"` normalises to `"smith jones"`. |
| Latin1.ApostropheExample | map-players.py:14 | `"O'Brien"` normalises to `"obrien"`: the apostrophe is deleted. |
| Latin1.HyphenExample | map-players.py:11 | `"Smith-Jones"` normalises to `"smith jones"`: the hyphen becomes a separator. |
| Latin1.SpacingAccentExample | map-players.py:12-15 | `"O´Brien"` normalises to `"o brien"`: the spacing acute is not deleted but NFKD turns it into a blank and a mark, so it separates words. |
| Latin1.AccentExample | map-players.py:12-13 | `"José Núñez"` and `"Jose Nunez"` normalise alike. |
| Latin1.PaddedSalahName | map-players.py:15 | `"  Salah"` normalises to `"salah"`: leading whitespace does not survive. |
| Latin1.SpacedMoSalahName | map-players.py:15 | `"Mo  Salah"` normalises to `"mo salah"`: a run of blanks becomes one. |
| Latin1.MohamedSalahName | map-players.py:49 | The full name of the example record normalises to `"mohamed salah"`. |
| Latin1.SalahName | map-players.py:50 | Its web name and surname normalise to `"salah"`. |
| Latin1.MoSalahName | map-players.py:60 | The example local name normalises to `"mo salah"`. |
| OrderedDict.Empty | map-players.py:47 | `{}` is a valid dictionary with no keys. |
| OrderedDict.Set | map-players.py:51-55 | `d[k] = v` maps k to v and leaves every other key's value unchanged. It keeps an existing key in its position and appends a new key at the end. |
| OrderedDict.Item | map-players.py:71 | The i-th item of `items()` is the i-th key in insertion order, paired with its value. |
| LookupIndex.Insert | map-players.py:48-55 | Writing one record's three keys keeps the dictionary valid. |
| LookupIndex.IndexOf | map-players.py:47-55 | The index built from the feed is a valid dictionary. |
| LookupIndex.BuildIndex | map-players.py:46-55 | The build loop produces exactly `IndexOf` of the feed; its keys are exactly the keys some record produces. |
| LookupIndex.InsertKeys | map-players.py:49-55 | Inserting a record adds exactly its three keys, after the keys already present. |
| LookupIndex.IndexKeys | map-players.py:47-55 | A key is in the index if and only if some record produces it. |
| LookupIndex.IndexKeysAll | map-players.py:47-55 | The same, for every key at once. |
| LookupIndex.LastWriterWins | map-players.py:51-55 | Each of a record's keys maps to that record's code unless a later record writes the same key. |
| LookupIndex.Absent | map-players.py:47-55 | A key no record produces is absent from the index. |
| LookupIndex.KeysKeepPosition | map-players.py:47-55 | Later records never move a key: the key order of a prefix's index is a prefix of the final key order. |
| LookupIndex.TwoKeyIndex | map-players.py:49-55 | A record whose keys are a, b, b gives the index a then b, both mapping to its code. |
| Resolver.Similarity | map-players.py:19-20 | The similarity is 0 whenever either name is empty. |
| Resolver.FirstOverlap | map-players.py:71-74 | A found position lies within the keys. |
| Resolver.FirstOverlapIsFirst | map-players.py:71-74 | The found key overlaps the name and no earlier key does; nothing is found if and only if no key overlaps. |
| Resolver.ContainmentMatch | map-players.py:70-74 | The containment loop finds no code if and only if no non-empty key overlaps the name. Otherwise the code is that of the earliest overlapping key. |
| Resolver.ScanIsEarliestMaximum | map-players.py:25-29 | The running best lies in [0, 1] and bounds every score seen. No code is kept if and only if the best score is 0. A kept code belongs to the earliest key reaching the best score. |
| Resolver.BestFuzzyMatch | map-players.py:23-32 | Returns the earliest most similar key's code, only when its score is positive and at least `min_score`. The best score is returned either way and bounds every candidate's score. |
| Resolver.ExactFirst | map-players.py:64-67 | The exact tier answers if and only if the name is a key, and then with that key's code. |
| Resolver.ContainmentFirstWins | map-players.py:70-78 | When the name is not a key, the first overlapping key in insertion order gives the code, however many later keys overlap. |
| Resolver.ContainmentMeansOverlap | map-players.py:72-78 | A containment match comes from a non-empty key that contains the name or is contained in it, when the name is not a key. |
| Resolver.EmptyNameTakesFirstKey | map-players.py:72-78 | When `""` is not a key, an empty name resolves to the first key in the index. |
| Resolver.FuzzyIsLastResort | map-players.py:80-85 | A fuzzy match happens only when the name is no key and overlaps no key. Its code is the earliest most similar key's, whose score reaches 0.86. |
| Resolver.UnmatchedIff | map-players.py:63-85 | A name goes unmatched if and only if it is no key, overlaps no key, and every key scores below 0.86. |
| Resolver.EmptyNameNeverFuzzy | map-players.py:72-85 | An empty name is never matched by the fuzzy tier. |
| Resolver.ContainmentOrderExample | map-players.py:70-78 | With keys "son" then "sonny", the name "sonnys" gets the code of "son". |
| Resolver.ThresholdExample | map-players.py:30-32 | A score of exactly 0.86 is accepted and one of 0.8599 is not. |
| Reconcile.MatchPlayer | map-players.py:60-85 | One player's pass through the exact, containment and fuzzy tiers yields `Outcome` of that player. |
| Reconcile.ReconcilePlayers | map-players.py:57-85 | Every player ends as `Reconciled`: it gets the matched code, or is untouched when unmatched. `matches` and `fuzzy_matches` are the counts of matched and fuzzy-matched players. |
| Reconcile.CountsBounded | map-players.py:57-85 | `fuzzy_matches <= matches <= len(local_players)`. |
| Reconcile.ReconciledCodeFromIndex | map-players.py:64-85 | A player's id and name never change. An unmatched player is unchanged. A matched player's code is a code in the index. |
| Reconcile.ReconcileTwice | map-players.py:59-85 | Reconciling a player a second time with the same index changes nothing. |
| Propagate.CoreMapKeys | map-players.py:98 | An id is in `core_map` if and only if some local player with that id has a truthy photo code. |
| Propagate.CoreMapLastWins | map-players.py:98 | An id maps to the code of the last local player with that id and a truthy code. |
| Propagate.BeforeDash | map-players.py:101 | `split('-')[0]` is the longest prefix without `-`, followed in the input by a `-` when shorter than the input. |
| Propagate.SyncCountBounded | map-players.py:99-104 | `synced` is at most the number of UI records. |
| Propagate.PropagatePhotoCodes | map-players.py:98-104 | Every UI record ends as `Synced`: it gets the joined code when its base id is in `core_map`, and is untouched otherwise. `synced` counts the joined records. |
| Propagate.SyncedJoin | map-players.py:100-103 | A UI record whose base id is a local player's id with a truthy code gets exactly the last such player's code. |
| Propagate.UnsyncedUnchanged | map-players.py:100-103 | A UI record whose base id names no local player with a truthy code is unchanged. |
| Propagate.CompositeIdExample | map-players.py:101 | `"1-variantA"` joins as `"1"`. An empty `basePlayerId` falls back to `id`. |
| Propagate.PropagationExample | map-players.py:98-103 | Local player "1" with code 101 passes 101 to UI record "1-variantA". |
| MapPlayers.Run | map-players.py:46-104 | The whole run leaves every player reconciled against the index of the feed, with both counts. It then leaves every UI record synced against the reconciled players, with `synced`. |
| MapPlayers.SalahIndex | map-players.py:47-55 | Feed record Mohamed Salah gives the index keys "mohamed salah" then "salah", both mapping to 101. |
| MapPlayers.SalahResolves | map-players.py:63-78 | Against that index, "mo salah" resolves to 101 in the containment tier. |
| MapPlayers.SalahExample | map-players.py:46-85 | Under any normaliser that normalises the example's names as `normalize` does, local player "Mo Salah" gets 101 from the containment tier, with one match and no fuzzy match. |
| MapPlayers.SalahExampleLatin1 | map-players.py:7-85 | The same outcome with the Latin-1 normaliser. |

## Left out

- The network fetch of the feed (lines 42-44). The feed is the input sequence `elements`.
- All file and JSON I/O, `print`, and the exception paths (lines 35-40, 87-91, 94-97, 106-113). A missing UI file skips propagation in the script; the model always propagates over the UI records it is given.
- Resolver.Similarity: difflib's `SequenceMatcher.ratio()` is not modelled; it is the parameter `ratio`, read as the exact quotient 2M/T (M matched characters, T the total length of both strings) rather than the double Python computes. `MinScore` is the exact real 0.86, whereas Python compares against the double nearest 0.86, which lies slightly below it. `Resolver.ThresholdExample` is stated in the exact reading. In Python a quotient equal to 43/50 rounds to that same double and is accepted too. The readings could differ only for a quotient within about one ulp below 0.86. Any 2M/T other than 43/50 lies at least 1/(50T) from 0.86, far more than an ulp for any name length.
- Normalizer.Normalize: the full Unicode tables for `str.lower`, NFKD, `unicodedata.combining`, `\w` and `\s` are not modelled. They are fields of an `Alphabet`. `Latin1.Table` gives them for Latin-1 (U+0000 to U+00FF) and for the two characters NFKD produces from Latin-1 (U+03BC, a `\w` character, and U+2044). It treats U+0300 to U+036F as combining except U+034F, whose combining class is 0. Their NFKD is the character itself, which differs from Unicode only for U+0340, U+0341, U+0343 and U+0344: those decompose to combining marks, which line 13 drops all the same, so no normal form changes. Any other character is its own lower case and NFKD form and is neither `\w` nor `\s`.
- Normalizer.Alphabet: `str.lower` and NFKD are taken character by character. Context-dependent lower-casing (final sigma) is not modelled; it only matters beyond Latin-1. Canonical reordering of combining marks is not modelled either. It never changes `normalize`'s output, because it moves only characters with a non-zero combining class, and line 13 drops all of those.
- Normalizer.NormalizeIdempotent: proved only for stable alphabets, because over full Unicode `normalize` is not idempotent.
- Normalizer.NormalizeEmpty: `normalize(None)` and the `str(name)` coercion of non-string names are not modelled; names are strings.
- Reconcile.MatchPlayer: the script calls `normalize`; the model calls the parameter `norm`, which `MapPlayers.Run` sets to `Norm(A)`.
- LookupIndex.BuildIndex: as for MatchPlayer, the normaliser is the parameter `norm`. A missing record field (a `KeyError` in the script) is not modelled; records always carry all four fields.
- Propagate.BaseId: ids are strings or absent. Non-string ids are not modelled. An integer local id would become an integer `core_map` key at line 98, and the string `base_id` never equals it, so that player never joins. An integer UI id, by contrast, goes through `str(...)` at line 101 and can join. An integer `basePlayerId` of 0 is falsy and falls through to `id`. A missing local `id` (a `KeyError`) is not modelled either.
- Propagate.HasPhotoCode: Python truthiness of a photo code is modelled for integer codes only (present and non-zero).
