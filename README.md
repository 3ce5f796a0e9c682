# Filename sanitizer of the playlist downloader

The downloader names its working directory and its archive after the playlist
title. `sanitize_filename` (utils.py) turns that title into one safe path
segment. It does this in five steps:

1. Delete the characters `< > : " / \ | ? *`.
2. Strip whitespace from both ends, as Python's `str.strip()` does.
3. Replace each space `' '` with one underscore.
4. Delete every character outside `[A-Za-z0-9_-]`.
5. Keep the slice `[:max_length]`. The default bound is 100.

Module `Utils` (utils.dfy) models each step as a function on `string`, and
`Clean` and `SanitizeFilename` compose them. It then proves what the
sanitizer promises:

- the output alphabet;
- the length bound;
- idempotence, for a non-negative bound (with a negative bound every pass
  cuts the name again);
- order preservation;
- the treatment of spaces and of surrounding whitespace;
- the empty results;
- monotonicity in the bound, for two bounds of the same sign (`"ab"` gives
  `"a"` with bound -1 but `""` with bound 0).

Module `Seqs` (seqs.dfy) holds the generic pieces: a filter by a predicate,
the subsequence order and occurrence counts, with their lemmas.

Runs of spaces are not collapsed: step 3 replaces each `' '` with its own
`'_'`, so `"a  b"` gives `"a__b"` (`SpaceRunKept`,
`InteriorSpacesBecomeUnderscores`). Other whitespace inside the name, such as
a tab, is not turned into an underscore; step 4 deletes it.

Whitespace for step 2 is the exact set of code points for which Python's
`str.isspace()` holds (`IsWhitespace`). A negative `max_length` is modelled
as Python slicing treats it: the slice counts from the end of the string.

## Model

| member | source | states |
|---|---|---|
| Utils.RemoveForbidden | utils.py:8 | step 1: the result is no longer than the input and holds no character of `< > : " / \ \| ? *` |
| Utils.RemoveForbiddenMembers | utils.py:8 | a character occurs in the result of step 1 exactly when it occurs in the input and is not forbidden |
| Utils.RemoveForbiddenFixes | utils.py:8 | step 1 leaves text without forbidden characters unchanged |
| Utils.RemoveForbiddenConcat | utils.py:8 | step 1 distributes over concatenation |
| Utils.RemoveForbiddenDrops | utils.py:8 | step 1 deletes text made only of forbidden characters |
| Utils.RemoveForbiddenIsSubseq | utils.py:8 | the result of step 1 is a subsequence of its input |
| Utils.TrimStart | utils.py:10 | leading half of `strip()`: the result is a suffix of the input, every cut character is whitespace, and the result does not start with whitespace |
| Utils.TrimEnd | utils.py:10 | trailing half of `strip()`: the result is a prefix of the input, every cut character is whitespace, and the result does not end with whitespace |
| Utils.Strip | utils.py:10 | step 2: the result is no longer than the input and neither starts nor ends with whitespace |
| Utils.StripBounds | utils.py:10 | step 2 keeps one contiguous slice of its input, and everything cut before and after that slice is whitespace |
| Utils.StripFixes | utils.py:10 | text that neither starts nor ends with whitespace is unchanged by step 2 |
| Utils.TrimStartSkipsPrefix | utils.py:10 | whitespace placed in front makes no difference to the leading trim |
| Utils.TrimEndSkipsSuffix | utils.py:10 | whitespace placed behind makes no difference to the trailing trim |
| Utils.TrimStartThroughSuffix | utils.py:10 | the leading trim keeps trailing whitespace unless the text before it was all whitespace |
| Utils.StripIgnoresPadding | utils.py:10 | whitespace around a text does not change what step 2 keeps |
| Utils.StripIsSubseq | utils.py:10 | the result of step 2 is a subsequence of its input |
| Utils.SpacesToUnderscores | utils.py:10 | step 3: same length as the input; each position holds `'_'` where the input has `' '` and the input character elsewhere |
| Utils.SpacesToUnderscoresSubseq | utils.py:10 | step 3 preserves the subsequence order between two texts |
| Utils.SpacesToUnderscoresFixes | utils.py:10 | text without spaces is unchanged by step 3 |
| Utils.SpacesToUnderscoresConcat | utils.py:10 | step 3 distributes over concatenation |
| Utils.KeepAllowed | utils.py:12 | step 4: the result is no longer than the input and holds only characters of `[A-Za-z0-9_-]` |
| Utils.KeepAllowedMembers | utils.py:12 | a character occurs in the result of step 4 exactly when it occurs in the input and is in `[A-Za-z0-9_-]` |
| Utils.KeepAllowedFixes | utils.py:12 | text made only of allowed characters is unchanged by step 4 |
| Utils.KeepAllowedConcat | utils.py:12 | step 4 distributes over concatenation |
| Utils.KeepAllowedEmptyIff | utils.py:12 | step 4 gives the empty string exactly when no input character is allowed |
| Utils.KeepAllowedIsSubseq | utils.py:12 | the result of step 4 is a subsequence of its input |
| Utils.IsForbidden | utils.py:8 | the class `[<>:"/\\\|?*]` that step 1 deletes; `ForbiddenIsClass` states it against the list of members |
| Utils.ForbiddenIsClass | utils.py:8 | `IsForbidden` holds exactly for the nine characters `< > : " / \ \| ? *` |
| Utils.IsWhitespace | utils.py:10 | the whitespace that `str.strip()` removes; `WhitespaceIsIsspace` states it against the list of code points |
| Utils.WhitespaceIsIsspace | utils.py:10 | `IsWhitespace` holds exactly for the 29 code points for which Python's `str.isspace()` holds |
| Utils.IsAllowed | utils.py:12 | the class `[A-Za-z0-9_\-]` that step 4 keeps; `AllowedIsClass` states it against the list of members |
| Utils.AllowedIsClass | utils.py:12 | `IsAllowed` holds exactly for the 26 upper-case and 26 lower-case ASCII letters, the 10 digits, `_` and `-` |
| Utils.AllowedIsPlain | utils.py:8-12 | an allowed character is neither forbidden nor whitespace, so steps 1 and 2 never remove it |
| Utils.Truncate | utils.py:13 | step 5, the slice `[:max_length]`: the result is a prefix of the input, of length `min(max_length, len)` for a non-negative bound and `max(0, len + max_length)` for a negative one |
| Utils.Clean | utils.py:8-12 | steps 1 to 4: every character of the result is in `[A-Za-z0-9_-]` |
| Utils.SanitizeFilename | utils.py:6-13 | every character of the result is in `[A-Za-z0-9_-]`; for a non-negative bound the result is at most `max_length` long; the empty name gives the empty string |
| Utils.UnderscoresFromSpaces | utils.py:10-12 | after steps 3 and 4 the number of underscores is the number of spaces plus the number of underscores before step 3 |
| Utils.InteriorSpacesBecomeUnderscores | utils.py:8-12 | each space left after the strip becomes exactly one underscore; runs are not collapsed |
| Utils.CleanFixesAllowed | utils.py:8-12 | text of allowed characters passes steps 1 to 4 unchanged |
| Utils.AllowedInputKept | utils.py:12-13 | an input of allowed characters is returned unchanged when it fits the bound, and cut to its first `max_length` characters otherwise |
| Utils.Idempotent | utils.py:6-13 | for a non-negative bound, sanitizing the result again returns it unchanged |
| Utils.CleanEmptyIff | utils.py:8-12 | the name is empty before step 5 exactly when the stripped text holds no allowed character and no space |
| Utils.NothingUsableGivesEmpty | utils.py:8-13 | an input with no allowed character and no space gives the empty string, for every bound |
| Utils.EmptyResultIff | utils.py:8-13 | the result is empty whenever the text left after steps 1 and 2 holds no allowed character and no space (so `" <> "` gives `""`); for a positive bound it is empty only then |
| Utils.CleanIsSubseq | utils.py:8-12 | the result of steps 1 to 4 is a subsequence of the input with spaces turned into underscores |
| Utils.OrderPreserved | utils.py:8-13 | the result is a prefix of the name before step 5 and a subsequence of the input with spaces turned into underscores |
| Utils.SurroundingWhitespaceIgnored | utils.py:8-13 | whitespace before and after the title changes nothing in the result and produces no underscore |
| Utils.ForbiddenCharactersIgnored | utils.py:8-13 | inserting forbidden characters anywhere in the title does not change the result |
| Utils.MonotoneInLength | utils.py:13 | for two bounds of the same sign, the result for the smaller bound is a prefix of the result for the larger |
| Utils.NegativeBoundCutsFromEnd | utils.py:13 | with a negative bound, an input of allowed characters loses that many characters from its end, or becomes empty |
| Utils.NegativeBoundNotIdempotent | utils.py:6-13 | with bound -1, sanitizing an allowed input of two or more characters twice gives a different result than sanitizing it once |
| Utils.SpacedWordsKept | utils.py:8-12 | words of allowed characters separated by spaces, with no space at either end, come out of steps 1 to 4 with each space turned into an underscore |
| Utils.ForbiddenTailLeavesNoUnderscore | utils.py:8-10 | a word followed by a space and a forbidden character gives the same result as the word alone: step 1 exposes the space and step 2 strips it (`"a <"` gives `"a"`) |
| Utils.SpaceRunKept | utils.py:10-13 | a run of k spaces between two words becomes exactly k underscores (`"a  b"` gives `"a__b"`) |
| Seqs.Filter | utils.py:8 | the filtered sequence is no longer than the input, and every element satisfies the predicate |
| Seqs.FilterMembers | utils.py:12 | an element occurs in the filtered sequence exactly when it occurs in the input and satisfies the predicate |
| Seqs.FilterDropsAll | utils.py:12 | filtering gives the empty sequence exactly when no element satisfies the predicate |
| Seqs.FilterIsSubseq | utils.py:12 | the filtered sequence is a subsequence of the input |
| Seqs.SubseqTransitive | utils.py:8-12 | the subsequence order is transitive, so the order kept by each step carries through the chain |

## Left out

- `empty_folder` (utils.py:16-25) deletes files and directories and prints errors. It is filesystem side effects only.
- main.py sets up the web application, the static mount, the template and the output directory. It is web and I/O setup with no logic to state.
- The job store, the background downloads, the external downloader and the archive creation are not part of this model. They are concurrency and I/O.
- The Python regular-expression engine is not modelled. The two character classes of `re.sub` are written as the predicates `IsForbidden` and `IsAllowed`.
- A Python string may hold a lone surrogate code point; a Dafny `char` cannot. Such inputs are outside the model. Step 4 would delete them anyway.
