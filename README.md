# Postman: a Dafny model of the yubin address tokenizer

`yubin` turns a raw Japanese postal address into an `Address` record. `Postman.tokenize`
runs nine regular-expression rules over the address in a fixed order: prefecture (TO),
floor (KAI), ward (KU), building (MUNE), chome, ban, go, postal code and a trailing number
(ENDGO). For each rule, `normalize` does three things:

- it collects the first group of every `re.findall` match;
- it replaces every occurrence of each match with the rule's marker padded by spaces (for example ` #KAI# `);
- it normalises the whitespace.

The matches are recorded in a dictionary under the stripped marker. Then the residual text
is split into tokens. With `use_char`, the tokens are split further into single characters,
except for marker-like tokens. Each recorded match is written back over the first token that
still equals its marker, found with `list.index`. The record holds one list per rule plus
the tokens. With `return_str`, the result is the tokens joined by spaces.

The model has five modules:

- `Text`: the Python string built-ins involved.
  - `str.isspace`, with its exact 29 code points.
  - `str.split()`, `' '.join`, `str.strip()`.
  - `str.replace`, including the empty-pattern case.
  - The facts about them that the tokenizer needs: split/join round trips, what
    whitespace normalisation yields, and that `str.replace` rewrites the leftmost
    occurrence and leaves none behind.
- `Regexes`: the nine patterns and `re.findall`.
  - Each pattern is an anchored matcher that returns the match length and the first
    group, with the `re` engine's greedy and backtracking choices worked out. That
    covers the greedy `.*` of the KU pattern (the group ends at the last 区 of the
    line), the `{1,}` repetition of the postal pattern, and `$` before a final newline.
  - Each matcher is checked against a description of the text its pattern matches
    (for example "number characters, then counters"): it succeeds exactly when such a
    text starts at the index, and it takes the longest one, as the `re` engine does.
    For KU, `KuShape` and `KuLastWard` say what a match looks like, and `KuComplete`
    says that the anchor followed by a 区 on the same line is always matched.
  - `findall` is a left-to-right scan that resumes where each match ends.
- `Restoration`: the write-back loop of lines 68-70, on an array, with `list.index` as a
  method. Its outcome is described independently: the n-th occurrence of a marker receives
  its n-th match.
- `Postman`: the rule table, `normalize` (a method with its loop over the matches),
  `tokenize` (a method), and what the record and tokens are for every address.
- `Scenarios`: worked inputs.

`tokenize` raises `ValueError` when a marker has disappeared from the tokens before its
matches are written back. The model returns this as `Failure(marker)` in a `Result`.
`Postman.TokenizeOutcome` characterises it exactly: tokenize fails precisely when some
marker occurs fewer times among the tokens than it has recorded matches. The rules
produce this on "東京都3階港区": the TO and KAI rules leave "#TO# #KAI# 港区". The KU
pattern `#TO# (.*区(佃)?)` then swallows "#KAI# 港区" into its group, and the text becomes
"#TO# #KU#" (`Scenarios.KuSwallowsKai`). The KAI marker is then not among the tokens
(`Scenarios.KaiMarkerGone`), so restoration stops at `#KAI#` (`Scenarios.KaiShort`).

## Behaviour of the source worth knowing

- The TO group is the outer group of `((東京)都)`, so `to` is `["東京都"]`, not `["東京"]`.
- The joined result is the restored tokens separated by single spaces
  (`Postman.TokenizeJoined`). It is not the original string whenever the rules split a word.
- Joining the restored tokens need not give back the address even up to whitespace. For
  "1丁目 21丁目" the CHOME matches are "1丁目" and "21丁目". Replacing "1丁目" also rewrites
  the tail of "21丁目", so the text becomes "#CHOME# 2 #CHOME#". No later rule finds anything
  in it, and restoration gives "1丁目 2 21丁目" (`Scenarios.OverlapTokenized`).
- The numeral classes contain the Kangxi radicals ⼀ ⼆ ⼋ ⼗ (U+2F00, U+2F06, U+2F0B,
  U+2F17), not the ordinary numerals 二 八 十. So 二丁目 is not a chome, while ⼆丁目 is
  (`Scenarios.OrdinaryNumeralMissed`, `Scenarios.RadicalNumeralFound`).
- Restoration looks up the first token equal to the marker each time. It does not keep a
  cursor, and with the values that can occur the two agree (`Restoration.RestoreFill`).

## Model

| member | source | states |
|---|---|---|
| Text.IsSpace | yubin/__init__.py:46 | definition of `str.isspace()`: exactly the 29 code points Python treats as whitespace, on which `split()` and `strip()` cut |
| Text.SplitTokens | yubin/__init__.py:64-65 | every piece of `str.split()` is non-empty and free of whitespace |
| Text.Split | yubin/__init__.py:64-65 | definition of `str.split()` without a separator: the maximal runs of non-whitespace characters, in order |
| Text.Join | yubin/__init__.py:46 | definition of `' '.join`: the pieces with one space between each two, the empty string for no pieces |
| Text.Strip | yubin/__init__.py:46 | definition of `str.strip()`: the text without its leading and trailing whitespace |
| Text.Collapse | yubin/__init__.py:46 | definition of `' '.join(text.split()).strip()`, the normalisation that ends each rule pass |
| Text.ReplaceAll | yubin/__init__.py:45 | definition of `str.replace`: from the left, every non-overlapping occurrence of the pattern becomes the substitute; an empty pattern puts the substitute before every character and at the end |
| Text.SplitJoin | yubin/__init__.py:46 | splitting `' '.join` of whitespace-free, non-empty tokens gives those tokens back |
| Text.JoinSplitNormal | yubin/__init__.py:64-65 | joining the split of whitespace-normal text gives the text back |
| Text.StripNormal | yubin/__init__.py:46 | `strip()` leaves whitespace-normal text unchanged |
| Text.CollapseNormal | yubin/__init__.py:46 | `' '.join(text.split()).strip()` is whitespace-normal and equals the join of the split |
| Text.CollapseFixed | yubin/__init__.py:46 | normalising already normal text changes nothing |
| Text.CollapseKeepsText | yubin/__init__.py:46 | normalising keeps every non-whitespace character, in order |
| Text.ConcatSplit | yubin/__init__.py:64-65 | the split pieces, concatenated, are the non-whitespace characters of the text |
| Text.ReplaceAbsent | yubin/__init__.py:45 | `str.replace` leaves a text without the pattern unchanged |
| Text.ReplaceLeftmost | yubin/__init__.py:45 | `str.replace` rewrites the leftmost occurrence and continues after it |
| Text.ReplacePrefix | yubin/__init__.py:45 | a prefix of the replaced text that shares no character with the substitute was already a prefix of the text |
| Text.ReplaceGone | yubin/__init__.py:45 | after `str.replace`, the pattern occurs nowhere when it shares no character with the substitute |
| Text.ReplaceKeepsAbsent | yubin/__init__.py:45 | `str.replace` creates no occurrence of a text that shares no character with the substitute: absent before, absent after |
| Text.StripPadded | yubin/__init__.py:56 | stripping a space-padded word gives the word |
| Text.SplitPadded | yubin/__init__.py:46 | a space-padded token at the front splits off as one piece |
| Regexes.Run | yubin/__init__.py:18-25 | a greedy run stays in the text, is non-empty exactly when the first character is in the class, ends on a class character, and stops at the first character that is not |
| Regexes.RunAll | yubin/__init__.py:18-25 | every character a greedy run takes is in the class |
| Regexes.ToAt | yubin/__init__.py:15 | a TO match is 東京都 and its group is the whole match |
| Regexes.KaiAt | yubin/__init__.py:25 | a KAI match is a group that ends the match and is not a marker |
| Regexes.LastWardSpec | yubin/__init__.py:16 | the search finds the last 区 of a range, and nothing exactly when the range has none |
| Regexes.KuAt | yubin/__init__.py:16 | a KU match is a group that ends the match and is not a marker |
| Regexes.KuShape | yubin/__init__.py:16 | a KU match starts with "#TO# ", and its group runs from there to a 区, taking 佃 when it follows |
| Regexes.KuLastWard | yubin/__init__.py:16 | the 区 ending a KU group is the last on its line: the group has no newline, and every later 区 is after a newline |
| Regexes.KuComplete | yubin/__init__.py:16 | after the anchor "#TO# ", a 区 with no newline before it on its line is always matched, and the group reaches at least that 区 |
| Regexes.MuneAt | yubin/__init__.py:24 | a MUNE match is a group that ends the match and is not a marker |
| Regexes.CounterAt | yubin/__init__.py:18-21 | a CHOME, BAN or GO match is a group that ends the match and is not a marker |
| Regexes.PostalFrom | yubin/__init__.py:17 | the `{1,}` repetition followed by the final digits ends inside the text on a digit |
| Regexes.PostalAt | yubin/__init__.py:17 | a POSTAL match is a group that ends the match and is not a marker |
| Regexes.EndGoAt | yubin/__init__.py:22 | an ENDGO match is a group that ends the match and is not a marker |
| Regexes.RunExact | yubin/__init__.py:18-25 | a run of k class characters that the class does not continue is exactly the greedy run |
| Regexes.TwoRunsGreedy | yubin/__init__.py:18 | when the second class shares nothing with the first, any text of the shape p+ q+ splits where the greedy run of p ends and ends within the greedy run of q |
| Regexes.CountersApart | yubin/__init__.py:18-21 | none of the counters 丁目, 番街目, 号棟室館 is '#' or a number character |
| Regexes.CounterLongest | yubin/__init__.py:18-21 | a CHOME, BAN or GO match at i is a number+ counter+ text there, and every such text starting at i lies within it: the match is the longest one, and there is a match whenever such a text exists |
| Regexes.RunThenGreedy | yubin/__init__.py:24-25 | in a text of the shape p+ followed by a mark outside p, the run of p is the greedy run |
| Regexes.KaiExact | yubin/__init__.py:25 | a KAI match at i is a floor text there (digits or kanji numerals, then 階 or Ｆ), and every floor text starting at i is exactly the match |
| Regexes.MuneExact | yubin/__init__.py:24 | a MUNE match at i is building characters followed by 棟 or 号棟, and every such text starting at i is exactly the match |
| Regexes.EndGoExact | yubin/__init__.py:22 | an ENDGO match at i is numerals reaching the point where `$` holds, and every such run is exactly the match |
| Regexes.StepBlock | yubin/__init__.py:17 | one step of the postal repetition succeeds exactly on an optional 〒, digits and a separator, and ends after the separator |
| Regexes.TailDigits | yubin/__init__.py:17 | the closing digits of a postal code are the longest run of digits |
| Regexes.FromSound | yubin/__init__.py:17 | what the postal search finds from j is zero or more repetitions followed by digits |
| Regexes.FromLongest | yubin/__init__.py:17 | any repetitions followed by digits from j end within what the postal search finds |
| Regexes.PostalLongest | yubin/__init__.py:17 | a POSTAL match at i is one or more repetitions followed by digits, and every such text starting at i lies within it |
| Regexes.MatchAt | yubin/__init__.py:15-25 | every rule's attempt, when it succeeds, spans a non-empty part of the text and ends with its group, which is not a marker |
| Regexes.Attempt | yubin/__init__.py:43 | every successful attempt consumes at least one character, so the findall scan moves on |
| Regexes.ScanWith | yubin/__init__.py:43 | definition of the `re.findall` scan: attempts start at every index from the left, and after a match at the index where it ended; the first group of each match is kept |
| Regexes.FindAll | yubin/__init__.py:43 | definition of `[match[0] for match in re.findall(pattern, text)]` for one rule of the table |
| Regexes.ScanLeftmost | yubin/__init__.py:43 | findall's first group comes from the leftmost match, and the scan resumes where that match ends |
| Regexes.ScanEmpty | yubin/__init__.py:43 | findall returns nothing exactly when no index matches |
| Regexes.ScanGroups | yubin/__init__.py:43 | every group findall returns is non-empty and does not end in '#' |
| Restoration.IndexOf | yubin/__init__.py:70 | `list.index` gives the first index holding the key, and nothing exactly when the key is absent |
| Restoration.Index | yubin/__init__.py:70 | the loop over the array finds what `IndexOf` specifies |
| Restoration.Place | yubin/__init__.py:69-70 | definition of the inner loop: each value of one marker overwrites the first token still equal to the marker, failing with the marker when there is none |
| Restoration.Restore | yubin/__init__.py:68-70 | definition of the outer loop: the markers in dictionary order, stopping at the first failure |
| Restoration.RestoreInPlace | yubin/__init__.py:68-70 | the nested loops on the array give the value-by-value outcome: the restored tokens on success, the marker whose lookup failed otherwise |
| Restoration.FillAt | yubin/__init__.py:69-70 | one marker, position by position: the n-th occurrence takes the n-th value, and every other token is unchanged |
| Restoration.PlaceFill | yubin/__init__.py:69-70 | writing one marker's values back succeeds exactly when the marker occurs at least as often as it has values, and then fills the occurrences in order |
| Restoration.Short | yubin/__init__.py:68-70 | no marker runs short exactly when every marker occurs at least as often as it has values |
| Restoration.RestoreFill | yubin/__init__.py:68-70 | with distinct markers that are never values, restoration fails on the first marker that runs short, and otherwise fills every marker in turn |
| Restoration.FillAllKeeps | yubin/__init__.py:68-70 | a token that is no marker is never overwritten |
| Restoration.FillAllAt | yubin/__init__.py:68-70 | the n-th occurrence of a marker ends up holding that marker's n-th value, or stays the marker |
| Restoration.ShortCounts | yubin/__init__.py:68-70 | which marker runs short depends only on how often each marker occurs |
| Postman.Address | yubin/__init__.py:8-9 | definition of the `Address` namedtuple: one list of matches per rule, and the tokens |
| Postman.Rules | yubin/__init__.py:27-37 | definition of the order of `JAPANESE_ADDRESS_REGEXES`: TO, KAI, KU, MUNE, CHOME, BAN, GO, POSTAL, ENDGO |
| Postman.Marker | yubin/__init__.py:28-36 | definition of each substitute without its padding, the dictionary key of line 56 |
| Postman.Substitute | yubin/__init__.py:28-36 | definition of each substitute: the marker with one space on each side |
| Postman.RulesDistinct | yubin/__init__.py:27-37 | the table lists every rule once |
| Postman.MarkerShape | yubin/__init__.py:28-36 | each substitute, stripped, is its marker: one token that begins and ends with '#' |
| Postman.MarkersDistinct | yubin/__init__.py:28-36 | different rules leave different markers |
| Postman.KuAfterTo | yubin/__init__.py:16 | the KU pattern starts with the TO marker and a space, and KU comes after TO in the table |
| Postman.NormalizedSpec | yubin/__init__.py:42-46 | normalize returns findall's groups (a definitional clause, stated for callers), none of them a marker, and whitespace-normal text with every non-whitespace character of the rewritten text; without matches, the input normalised |
| Postman.FindAllEmpty | yubin/__init__.py:43 | a rule's findall is empty exactly when the rule matches at no index |
| Postman.FindAllFirst | yubin/__init__.py:43 | a rule's first recorded match comes from the leftmost index where it matches |
| Postman.ReplaceEach | yubin/__init__.py:44-45 | definition of the loop over the matches: each match in turn replaced everywhere by the substitute |
| Postman.Normalized | yubin/__init__.py:42-46 | definition of normalize: findall's first groups, and the text with each of them replaced and its whitespace normalised |
| Postman.ReplaceEachKeepsAbsent | yubin/__init__.py:44-45 | the loop over the matches creates no occurrence of a text that shares no character with the substitute |
| Postman.ReplaceEachGone | yubin/__init__.py:44-45 | after the loop, no match occurs anywhere in the text, when every match is non-empty and shares no character with the substitute |
| Postman.Normalize | yubin/__init__.py:42-46 | the loop over the matches computes normalize's result, and the text it returns is whitespace-normal |
| Postman.PutExisting | yubin/__init__.py:56 | assigning an existing dictionary key replaces its value where it stands |
| Postman.PutNew | yubin/__init__.py:56 | assigning a new dictionary key appends it |
| Postman.Put | yubin/__init__.py:56 | definition of `regex_matches[key] = value` on an insertion-ordered dictionary: an existing key keeps its place, a new key goes last |
| Postman.Fold | yubin/__init__.py:53-56 | definition of the rule loop over the first n rules of the table, for a given pass: the dictionary and the text after them |
| Postman.RunRules | yubin/__init__.py:53-56 | definition of the rule loop with normalize as the pass |
| Postman.FoldKeys | yubin/__init__.py:53-56 | after n rules the dictionary holds exactly their markers, in table order |
| Postman.FoldEntry | yubin/__init__.py:53-56 | entry e holds rule e's marker and what the pass returned on the text rule e saw |
| Postman.RunRulesEntry | yubin/__init__.py:53-56 | after the loop, entry e is rule e's marker with findall's groups for rule e on the text as rewritten by the rules before it |
| Postman.RunRulesText | yubin/__init__.py:54-55 | each rule sees the text that the previous rule's normalize returned (one step of the rule loop, stated for callers) |
| Postman.Tokens | yubin/__init__.py:59-65 | definition of the tokens before restoration: the use_char split with use_char, `addr.split()` otherwise |
| Postman.Chars | yubin/__init__.py:62 | `list(token)` has one single-character string per character |
| Postman.Pieces | yubin/__init__.py:60-62 | definition of the use_char pieces of one token: the token itself when stripped it starts and ends with '#', its characters otherwise |
| Postman.CharTokens | yubin/__init__.py:60-63 | definition of the use_char split: the pieces of every token, in order |
| Postman.PiecesToken | yubin/__init__.py:60-62 | with use_char, a marker-like token stays whole and any other token becomes its characters |
| Postman.CharTokensText | yubin/__init__.py:59-63 | the use_char split keeps the text of the tokens, in order |
| Postman.CharTokensPieces | yubin/__init__.py:59-63 | every use_char piece is a whole marker-like token or a single character |
| Postman.CharTokensCount | yubin/__init__.py:59-63 | every marker occurs among the use_char pieces as often as among the tokens |
| Postman.Tokenize | yubin/__init__.py:48-78 | the method (rule loop, split, restoration in place) returns what tokenize returns |
| Postman.TokenizeSpec | yubin/__init__.py:48-78 | definition of tokenize: the rule loop, the split, the restoration, and the record or the joined tokens; the `ValueError` of `list.index` is a failure naming the marker |
| Postman.Lookup | yubin/__init__.py:72-76 | definition of `regex_matches[key]` on the defaultdict: the recorded list, or an empty one |
| Postman.MakeAddress | yubin/__init__.py:72-76 | definition of the record: one lookup per marker, and the tokens |
| Postman.LookupAt | yubin/__init__.py:72-76 | with distinct keys, looking up entry e's key gives entry e's list |
| Postman.RecordedKeys | yubin/__init__.py:53-56 | the recorded keys are the nine markers, in table order, each once |
| Postman.AddressField | yubin/__init__.py:72-76 | each field of the record is findall's groups for its rule on the text that rule saw, and the record keeps the tokens |
| Postman.RecordedSeparate | yubin/__init__.py:53-56 | the recorded keys are distinct and no recorded match is a marker |
| Postman.TokenizeOutcome | yubin/__init__.py:48-78 | tokenize fails exactly when a marker occurs fewer times than it has matches, naming the first such marker; otherwise the record holds the tokens with each marker's occurrences filled in order |
| Postman.TokenizeJoined | yubin/__init__.py:78 | with return_str, the result is the record's tokens joined by spaces, and it fails in the same cases |
| Postman.ResidualTokens | yubin/__init__.py:64-65 | the text after the rules is whitespace-normal, and its split pieces joined give it back |
| Postman.RestoredTokens | yubin/__init__.py:68-70 | restoration keeps the number of tokens and every non-marker token; the n-th occurrence of a marker takes its n-th match |
| Postman.CharSplitSameOutcome | yubin/__init__.py:59-70 | use_char changes neither whether tokenize fails nor which marker it names |
| Scenarios.OrdinaryNumeralMissed | yubin/__init__.py:18-19 | 二丁目, written with the ordinary numeral, is not a chome |
| Scenarios.RadicalNumeralFound | yubin/__init__.py:18-19 | ⼆丁目, written with the Kangxi radical, is a chome |
| Scenarios.Go3TwiceMatches | yubin/__init__.py:21 | "3号 3号" has two GO matches, both "3号" |
| Scenarios.Go3TwiceReplaced | yubin/__init__.py:44-45 | the first replacement rewrites both occurrences, and the second finds nothing left to rewrite |
| Scenarios.Go3TwiceCollapsed | yubin/__init__.py:46 | the rewritten text normalises to "#GO# #GO#" |
| Scenarios.Go3TwiceNormalized | yubin/__init__.py:42-46 | normalize on "3号 3号" with the GO rule returns both matches and "#GO# #GO#" |
| Scenarios.KuTakesKai | yubin/__init__.py:16 | on "#TO# #KAI# 港区" the KU match starts at 0 and its group runs to the end, KAI marker included |
| Scenarios.KuFindsKai | yubin/__init__.py:43 | findall of the KU pattern on "#TO# #KAI# 港区" is the one group "#KAI# 港区" |
| Scenarios.KuReplacesKai | yubin/__init__.py:44-45 | replacing that group leaves "#TO# " and the padded KU marker |
| Scenarios.KuCollapsed | yubin/__init__.py:46 | the rewritten text normalises to "#TO# #KU#" |
| Scenarios.KuSwallowsKai | yubin/__init__.py:42-46 | normalize with the KU rule on "#TO# #KAI# 港区" records "#KAI# 港区" and returns "#TO# #KU#" |
| Scenarios.KaiMarkerGone | yubin/__init__.py:64-65 | the tokens of "#TO# #KU#" are the two markers, so the KAI marker is not among them |
| Scenarios.KaiShort | yubin/__init__.py:68-70 | with at most one TO match and some KAI match recorded, restoring those tokens stops at "#KAI#" |
| Scenarios.ToIdle | yubin/__init__.py:15 | a text without 都 gives the TO rule nothing to find |
| Scenarios.KaiIdle | yubin/__init__.py:25 | a text without 階 or Ｆ gives the KAI rule nothing to find |
| Scenarios.KuIdle | yubin/__init__.py:16 | a text without '#' gives the KU rule nothing to find |
| Scenarios.MuneIdle | yubin/__init__.py:24 | a text without 棟 gives the MUNE rule nothing to find |
| Scenarios.BanIdle | yubin/__init__.py:20 | a text without 番, 街 or 目 gives the BAN rule nothing to find |
| Scenarios.GoIdle | yubin/__init__.py:21 | a text without 号, 棟, 室 or 館 gives the GO rule nothing to find |
| Scenarios.PostalIdle | yubin/__init__.py:17 | a text without a postal separator gives the POSTAL rule nothing to find |
| Scenarios.EndGoIdle | yubin/__init__.py:22 | a text that ends in neither a numeral nor a newline gives the ENDGO rule nothing to find |
| Scenarios.EarlyRulesIdle | yubin/__init__.py:15-25 | a text without 都, floor marks, '#' or 棟 gives the four rules before CHOME nothing to find |
| Scenarios.LateRulesIdle | yubin/__init__.py:17-22 | a text without counters or postal separators that ends in '#' gives the four rules after CHOME nothing to find |
| Scenarios.KeepsText | yubin/__init__.py:53-56 | rules that find nothing in a whitespace-normal text pass it on unchanged |
| Scenarios.EntryOf | yubin/__init__.py:53-56 | entry e of the dictionary is what rule e found in the text it saw |
| Scenarios.OneRule | yubin/__init__.py:53-56 | when only one rule finds anything, the dictionary holds its matches and nothing else, and the text after the loop is what its normalize returned |
| Scenarios.RestoreNone | yubin/__init__.py:68-70 | markers without matches leave the tokens as they are |
| Scenarios.RestoreOnly | yubin/__init__.py:68-70 | when only one marker has matches, restoration is writing back that marker's matches |
| Scenarios.OneRuleTokenize | yubin/__init__.py:48-78 | when only one rule finds anything, tokenize with return_str writes its matches back over the split of the text it left, and joins the result |
| Scenarios.OverlapMatches | yubin/__init__.py:43 | findall of the CHOME pattern on "1丁目 21丁目" gives "1丁目" and "21丁目" |
| Scenarios.OverlapFirstReplaced | yubin/__init__.py:45 | replacing "1丁目" in "1丁目 21丁目" also rewrites the tail of "21丁目", leaving its "2" behind |
| Scenarios.OverlapReplaced | yubin/__init__.py:44-45 | the loop over both matches gives the padded marker, " 2" and the padded marker: "21丁目" is gone before its own turn |
| Scenarios.OverlapSecondReplaced | yubin/__init__.py:45 | replacing "21丁目" in what the first replacement left changes nothing |
| Scenarios.OverlapNormalized | yubin/__init__.py:42-46 | normalize with the CHOME rule on "1丁目 21丁目" records both chome and returns "#CHOME# 2 #CHOME#" |
| Scenarios.OverlapSplit | yubin/__init__.py:64-65 | "#CHOME# 2 #CHOME#" splits into the marker, "2" and the marker |
| Scenarios.OverlapPlaced | yubin/__init__.py:69-70 | writing back the two chome puts "1丁目" on the first marker and "21丁目" on the second, with "2" between them |
| Scenarios.OverlapTokenized | yubin/__init__.py:48-78 | tokenize("1丁目 21丁目", return_str=True) is "1丁目 2 21丁目", which is not the address |

## Left out

- The `pandas` and `tqdm` imports (lines 5-6) are unused by the tokenizer.
- `ban_go_regex` (line 23) is not in the rule table. It is defined but never used.
- `Postman.__init__` (lines 39-40) does nothing, and the class has no state. The model is a module of functions and methods, without a class.
- Python's `re` engine in general is not modelled. Only the nine patterns of the table are, each as a hand-derived matcher.
- The `ValueError` is a `Failure` result. On failure, the model does not keep the partly rewritten token list, which the exception discards.
- Strings are sequences of code points. There is no Unicode normalisation, which the source does not do either.
- Joining the restored tokens does not give back the address in general, not even up to whitespace: a match that is part of a later match is replaced inside it too (`Scenarios.OverlapTokenized`). The model proves no reconstruction property, since the source has none.
- For "東京都3階港区", the first two steps (TO leaving "#TO# 3階港区", KAI leaving "#TO# #KAI# 港区") and the rules after KU are worked out by hand from the patterns, not proved. Only the KU step and the restoration that follows are proved, in `Scenarios`.
