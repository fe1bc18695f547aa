# jakartahash.com photo and caption logic, in Dafny

A Dafny model of the rule-driven parts of the Jakarta Hash House Harriers
gallery site, with proofs about each.

- **The photo renaming script** (`scripts/process-images.rb`):
  - it derives a capture date from each file name by four prioritised patterns;
  - it removes duplicate paths and sorts the files by date;
  - it numbers the files within each date, giving `{date}-{seq:03d}.webp`.
- **The two caption generators:**
  - `scripts/generate-captions_blip2.py`: the word clamp, whitespace tidying, the caption fallback chain, and how images are selected and keyed;
  - `scripts/generate-captions.py`: the "silly" rewrite with its random draws, and how a folder's captions are built.
- **Two browser widgets** (`assets/js/gallery.js`): the hero slideshow and the photo lightbox, as index state machines over "active" flags.

Modules, one concept each:

| module | file | what it holds |
|---|---|---|
| `Maybe` | `maybe.dfy` | `Option` |
| `Decimal` | `decimal.dfy` | decimal digits, Ruby's `%03d`, JavaScript's integer-to-string |
| `Ordering` | `ordering.dfy` | character-wise string order; keyed sorting as an insertion sort; image of a sequence under a key |
| `Text` | `text.dfy` | Python's whitespace set, `strip`, `split`/`\S+`, `" ".join`, `\s+` collapsing, ASCII `lower` |
| `ProcessImages` | `process_images.dfy` | `extract_date`, the deduplication, the sort and the `date_counts` numbering loop |
| `CaptionFiles` | `caption_files.dfy` | shared by the two caption scripts: selection, sorting and keying of images, and the loop that fills the `captions` dict |
| `Blip2Captions` | `blip2_captions.dfy` | `clamp_words`, `tidy`, `generate_caption`, `process_directory` |
| `SillyCaptions` | `silly_captions.dfy` | the lists, `str.replace`, `make_silly`, `process_folder` |
| `Gallery` | `gallery.dfy` | JavaScript `%`, the index wrap, the `Slideshow` and `Lightbox` classes |

How the model is organised:

- **Stateful code is imperative.** The two JavaScript widgets are classes with `modifies` frames. The slides' and indicators' "active" classes are `array<bool>` fields, updated in place.
- **The loops are methods.** The numbering loop, the rewrite loop of `make_silly` and the loops that fill the captions dicts are methods with loop invariants. Each is proved against a specification function.
- **Pure code is functions.** The file name classifier, the text clean-ups and the fallback chain are functions, with lemmas about them.
- **Outside input becomes parameters:**
  - directory listings are sequences, or `None` for a missing directory;
  - model outputs are opaque strings, or `Raised` for an exception;
  - random draws are values constrained to the ranges the code draws from;
  - DOM lookups are booleans saying whether the element was found.

Behaviour worth noting:

- **Sort order.** `sort_by` is not a stable sort. The model makes no claim about the order of files with equal dates. The numbering and distinctness proofs hold for any order that is sorted and a permutation.
- **One directory.** The script handles one flat directory and writes no manifest.
- **Padding.** `%03d` pads to at least three digits and never truncates, so a thousandth file on one date is numbered `1000`. `Decimal.Pad3` states this width.
- **WhatsApp rule.** `.*` is greedy, so rule 4 takes the last `DDDD-DD-DD` on the same line after `WhatsApp`, not the first.
- **Deduplication.** `uniq` removes equal path strings only; case variants of a name stay separate.

## Model

| member | source | states |
|---|---|---|
| ProcessImages.ExtractDate | scripts/process-images.rb:26-49 | the result is either `unknown-date` or ten characters of the form DDDD-DD-DD with ASCII digits |
| ProcessImages.GreedyDate | scripts/process-images.rb:43 | `.*` followed by a date finds the last dashed date reachable without crossing a newline, and there is none when it returns None |
| ProcessImages.Find | scripts/process-images.rb:28-45 | a regular expression search returns the leftmost position where the rule matches, and None only when it matches nowhere |
| ProcessImages.HyphenateRoundTrip | scripts/process-images.rb:29 | inserting dashes after the 4th and 6th digit gives a 10-character string, and removing them gives the eight digits back in order |
| ProcessImages.CompactRuleWins | scripts/process-images.rb:28-29 | if the leading-8-digits rule matches, the date is its digits hyphenated, whatever the later rules would say |
| ProcessImages.LeadingDigitsWin | scripts/process-images.rb:28-29 | a name starting with eight digits gets those digits hyphenated, even if it also contains `WhatsApp … DDDD-DD-DD` or `IMG-` |
| ProcessImages.DashedRuleDecides | scripts/process-images.rb:33-34 | when rule 1 cannot match and rule 2 matches, the date is the matched 10 characters, verbatim |
| ProcessImages.CameraRuleDecides | scripts/process-images.rb:38-39 | when rules 1 and 2 cannot match, the leftmost `IMG-`/`VID-` followed by 8 digits gives those digits hyphenated |
| ProcessImages.WhatsAppRuleDecides | scripts/process-images.rb:43-44 | when rules 1 to 3 cannot match, the date is the last dashed date on the line after the leftmost `WhatsApp`, verbatim |
| ProcessImages.UnknownIffNoRule | scripts/process-images.rb:47-48 | the result is `unknown-date` exactly when none of the four rules matches anywhere in the name |
| ProcessImages.SingleLine | scripts/process-images.rb:28 | in a name without newlines `^` can only match at position 0 |
| ProcessImages.FindIsLeftmost | scripts/process-images.rb:38 | when `p` is the leftmost match of a rule, the search from the start finds `p` |
| ProcessImages.LineStart | scripts/process-images.rb:28-33 | the positions where `^` can match: the start of the name or just after a newline; `SingleLine` narrows this to 0 for names without newlines |
| ProcessImages.MatchesAt | scripts/process-images.rb:28-45 | each rule's regular expression, matched from a given start position; `Find`, `UnknownIffNoRule` and the `…RuleDecides` lemmas are stated with it |
| ProcessImages.Hyphenate | scripts/process-images.rb:29 | `"#{$1}-#{$2}-#{$3}"` for the three digit groups; `HyphenateRoundTrip` states it is undone by removing the dashes |
| ProcessImages.UnknownSortsLast | scripts/process-images.rb:68 | every extracted date differs from `unknown-date` and sorts before it |
| ProcessImages.ExampleCompact | scripts/process-images.rb:27 | `20160327_155351_HDR.jpg` gives `2016-03-27` |
| ProcessImages.ExampleDashed | scripts/process-images.rb:32 | `2017-09-03 11.41.52-1.jpg` gives `2017-09-03` |
| ProcessImages.ExampleCamera | scripts/process-images.rb:37 | `IMG-20220827-WA0020.jpg` gives `2022-08-27` |
| ProcessImages.CameraExampleFacts | scripts/process-images.rb:37-39 | in the camera example rule 3 matches at the start with digits `20220827`, and rules 1 and 2 match nowhere |
| ProcessImages.ExampleWhatsApp | scripts/process-images.rb:42 | `WhatsApp Image 2019-08-19 at 14.21.49.jpeg` gives `2019-08-19` |
| ProcessImages.NoCameraInWhatsAppExample | scripts/process-images.rb:38 | rule 3 matches nowhere in the WhatsApp example |
| ProcessImages.LastDateInWhatsAppExample | scripts/process-images.rb:43 | the WhatsApp example has a dashed date at position 15 and none starting after it |
| ProcessImages.ExampleUnknown | scripts/process-images.rb:47 | the camera name `PC00023.png` gives `unknown-date` |
| ProcessImages.UnknownExampleFacts | scripts/process-images.rb:28-45 | none of the four rules matches anywhere in `PC00023.png` |
| ProcessImages.Uniq | scripts/process-images.rb:56 | `uniq` returns a duplicate-free list with the same members as its input, no longer than it |
| ProcessImages.UniqOfDistinct | scripts/process-images.rb:56 | `uniq` leaves a duplicate-free list unchanged |
| ProcessImages.UniqPrefix | scripts/process-images.rb:56 | `uniq` keeps first occurrences in input order: the deduplicated prefix of a list is a prefix of the deduplicated list |
| ProcessImages.Basename | scripts/process-images.rb:65 | `File.basename` is the tail of the path after its last `/` and holds no `/` |
| ProcessImages.BasenameOfJoin | scripts/process-images.rb:65 | the basename of `dir/name` is `name` |
| ProcessImages.Tag | scripts/process-images.rb:64-67 | the `map` makes one `[date, file, filename]` triple per file, in order, whose date is the extracted date of its basename |
| ProcessImages.TagOne | scripts/process-images.rb:65-67 | one triple keeps its file and holds that file's basename and extracted date |
| ProcessImages.FilesOfTag | scripts/process-images.rb:64-67 | the files of the tagged list are the input files, in order |
| ProcessImages.SortByDate | scripts/process-images.rb:68 | `sort_by` date gives a list sorted by date that is a permutation of its input |
| ProcessImages.SortedFiles | scripts/process-images.rb:56-68 | for duplicate-free input, the sorted list holds each discovered file exactly once with its own date |
| ProcessImages.PermutationWellFormed | scripts/process-images.rb:64-68 | reordering the triples keeps each one's date equal to its file's extracted date |
| ProcessImages.NumberFiles | scripts/process-images.rb:71-78 | the loop gives the j-th file the output name `date-seq` whose sequence number is its rank among files of that date so far; the final counter map holds exactly the dates seen, each with its number of files |
| ProcessImages.ProgressStep | scripts/process-images.rb:74-78 | one iteration of the loop keeps the numbering and counting invariant |
| ProcessImages.NumberedStep | scripts/process-images.rb:76-78 | appending the conversion built from the next file's rank keeps every conversion so far numbered by its rank |
| ProcessImages.CountsStep | scripts/process-images.rb:75 | after `date_counts[date] += 1` the new count is the rank of the current file, and the map counts one more file |
| ProcessImages.CountedAll | scripts/process-images.rb:71-75 | after the loop the counter map has exactly the dates that occur, each mapped to its number of occurrences |
| ProcessImages.OccurrencesAbsent | scripts/process-images.rb:71 | a date has count zero (the `Hash.new(0)` default) exactly when it does not occur |
| ProcessImages.Occurrences | scripts/process-images.rb:71-75 | the number of files with a date, the value `date_counts` reaches for it; `OccurrencesAbsent` and `CountedAll` state how the counter matches it |
| ProcessImages.Rank | scripts/process-images.rb:75-76 | the sequence number of the j-th file: how many of the first j+1 files share its date; `RankBounds`, `RankIncreasing` and `RanksCoverCount` state its range, order and coverage |
| ProcessImages.OutputName | scripts/process-images.rb:76-78 | `{date}-{seq:03d}.webp`; `OutputNameInjective` states that date and sequence number can be read back |
| ProcessImages.OutputPath | scripts/process-images.rb:79 | the output name under `assets/img` |
| ProcessImages.Convert | scripts/process-images.rb:76-84 | the `magick` call one iteration makes for a file with a given sequence number: the file, its output name and output path |
| ProcessImages.CountStep | scripts/process-images.rb:75-76 | extending the prefix by one file raises only that file's date count by one, and its sequence number is its count in the prefix plus one |
| ProcessImages.RankBounds | scripts/process-images.rb:75-76 | every sequence number lies between 1 and the number of files with that date |
| ProcessImages.RankIncreasing | scripts/process-images.rb:75-76 | of two files with the same date, the later one has the strictly larger sequence number |
| ProcessImages.RanksCoverCount | scripts/process-images.rb:75-76 | every number from 1 to a date's file count is the sequence number of some file with that date, so there are no gaps |
| ProcessImages.OutputNameInjective | scripts/process-images.rb:76-78 | output names of extracted dates determine the date and the sequence number |
| ProcessImages.OutputNamesDistinct | scripts/process-images.rb:71-78 | two different positions of the loop get different output names |
| ProcessImages.AllOutputNamesDistinct | scripts/process-images.rb:71-78 | all output names of a run are pairwise distinct |
| ProcessImages.TotalCount | scripts/process-images.rb:72-75 | summing the per-date counts over a duplicate-free list of all dates gives the number of files |
| ProcessImages.CountsSumToTotal | scripts/process-images.rb:72-75 | the counts over the distinct dates sum to `total` |
| ProcessImages.SumCountsSnoc | scripts/process-images.rb:75 | one more file adds one to the count of exactly its date among the keys |
| ProcessImages.OccursOnce | scripts/process-images.rb:71-75 | a date occurs once in a duplicate-free key list |
| ProcessImages.SumValues | scripts/process-images.rb:71-75 | the counter's values added up over a list of keys, a missing key adding the `Hash.new(0)` default |
| ProcessImages.CounterSumsToTotal | scripts/process-images.rb:71-75 | a counter holding every date's number of occurrences, and no other key, has values that add up to the number of files over the distinct dates |
| ProcessImages.SumValuesAreCounts | scripts/process-images.rb:71-75 | such a counter's values, added up over any keys, are the occurrence counts of those keys |
| ProcessImages.ProcessImages | scripts/process-images.rb:56-85 | the whole script: no files gives no conversions; otherwise each discovered file once, sorted by date, and all output names distinct; numbered by rank within its date, with the counter map as in `NumberFiles`, whose values over the distinct dates add up to the number of files |
| Decimal.DigitValue | scripts/process-images.rb:76 | a digit's value is below ten and prints back as that digit |
| Decimal.Decimal | assets/js/gallery.js:228 | the decimal notation of a number is non-empty, uses digits only, has that value and has no leading zero |
| Decimal.Pad3 | scripts/process-images.rb:76 | `%03d` gives digits of the number's value, at least three of them and exactly as many as the number needs when that is more |
| Decimal.Zeros | scripts/process-images.rb:76 | the padding is the requested number of `0` characters |
| Decimal.LeadingZeros | scripts/process-images.rb:76 | leading zeros do not change a value |
| Decimal.Pad3Injective | scripts/process-images.rb:76 | different numbers get different `%03d` strings |
| Decimal.DecimalInjective | assets/js/gallery.js:228 | different numbers print differently |
| Decimal.Pad3Width | scripts/process-images.rb:76 | below 1000 the sequence field is exactly three characters |
| Decimal.DecimalLength | scripts/process-images.rb:76 | numbers below 1000 need at most three digits and those below ten need one |
| Ordering.StrLeReflexive | scripts/process-images.rb:68 | the string order is reflexive |
| Ordering.StrLeTotal | scripts/process-images.rb:68 | any two dates are comparable |
| Ordering.StrLeTransitive | scripts/process-images.rb:68 | the string order is transitive |
| Ordering.StrLeAntisymmetric | scripts/process-images.rb:68 | strings that compare both ways are equal |
| Ordering.Insert | scripts/process-images.rb:68 | inserting into a sorted list keeps it sorted and adds exactly that element |
| Ordering.SortBy | scripts/process-images.rb:68 | a keyed sort returns its input permuted into key order |
| Ordering.ProjectPermutation | scripts/process-images.rb:64-68 | permuting the triples permutes their files |
| Ordering.PermutationNoDups | scripts/process-images.rb:56-68 | a permutation of a duplicate-free list is duplicate-free |
| Ordering.OccursAtMostOnce | scripts/process-images.rb:56 | no element occurs twice in a duplicate-free list |
| Text.IsSpace | scripts/generate-captions_blip2.py:73 | the characters Python's `str.isspace` and `\s` accept |
| Text.Strip | scripts/generate-captions_blip2.py:73 | `strip()`: trimming those characters from both ends; `TrimLeft`, `TrimRight` and `Trim` state what it removes and keeps |
| Text.Join | scripts/generate-captions_blip2.py:78 | `" ".join(ws)`: the words with one space between each pair; `JoinThenSplit` and `WordsOfJoin` state that splitting it gives them back |
| Text.TrimLeft | scripts/generate-captions_blip2.py:80 | `lstrip` removes the longest prefix of characters from the set and keeps the rest |
| Text.TrimRight | scripts/generate-captions_blip2.py:80 | `rstrip` removes the longest suffix of characters from the set and keeps the rest |
| Text.Trim | scripts/generate-captions_blip2.py:80 | after `strip(chars)` the result neither starts nor ends with one of the characters |
| Text.Words | scripts/generate-captions_blip2.py:73 | `re.findall(r"\S+", …)` yields non-empty words without whitespace |
| Text.WordsEmptyIff | scripts/generate-captions_blip2.py:74 | there are no words exactly when the string is whitespace only |
| Text.JoinThenSplit | scripts/generate-captions_blip2.py:77-78 | splitting `" ".join(words)` gives the words back |
| Text.WordsOfJoin | scripts/generate-captions.py:166 | the words of `" ".join(xs)` are the words of all the pieces, in order |
| Text.WordsAppend | scripts/generate-captions_blip2.py:73 | the words of a string cut before a whitespace character are the words of the two parts |
| Text.WordsStrip | scripts/generate-captions_blip2.py:73 | `strip()` does not change the words |
| Text.WordsTrim | scripts/generate-captions_blip2.py:80 | stripping characters from the ends never adds a word |
| Text.Collapse | scripts/generate-captions_blip2.py:85 | `re.sub(r"\s+", " ", s)` leaves only single spaces as whitespace, and is empty or starts with whitespace exactly when its input is or does |
| Text.WordsCollapse | scripts/generate-captions_blip2.py:85 | collapsing whitespace keeps the words |
| Text.NonSpaceCollapse | scripts/generate-captions_blip2.py:85 | collapsing whitespace keeps the non-whitespace characters in order |
| Text.NonSpaceStrip | scripts/generate-captions_blip2.py:84 | `strip()` keeps the non-whitespace characters in order |
| Text.Lower | scripts/generate-captions.py:153 | `lower()` maps each character by the ASCII rule and keeps the length |
| Blip2Captions.ClampWords | scripts/generate-captions_blip2.py:71-81 | `clamp_words`: the fallback for a blank input, otherwise the first `max_words` words joined and stripped of spaces and quotes, as `ClampWordsBlank`, `ClampWordsKept`, `ClampWordsEnds` and `ClampWordsBound` state |
| Blip2Captions.ClampWordsBlank | scripts/generate-captions_blip2.py:73-75 | an empty or whitespace-only input gives exactly `Such photo. Much wow.` |
| Blip2Captions.ClampWordsKept | scripts/generate-captions_blip2.py:76-80 | otherwise the result is the first `min(#words, max_words)` words joined by single spaces, with spaces and quotes stripped from the ends |
| Blip2Captions.ClampWordsEnds | scripts/generate-captions_blip2.py:80 | a non-fallback result is empty or neither starts nor ends with a space, `"` or `'` |
| Blip2Captions.ClampWordsBound | scripts/generate-captions_blip2.py:76-80 | a non-fallback result has at most `max_words` words |
| Blip2Captions.ClampWordsSpacing | scripts/generate-captions_blip2.py:73 | the clamp depends only on the words of its input, not on the spacing |
| Blip2Captions.TrimmedJoinWords | scripts/generate-captions_blip2.py:78-80 | stripping quotes from joined words leaves no more words than were joined |
| Blip2Captions.JoinStripped | scripts/generate-captions_blip2.py:78 | the `.strip()` after `" ".join(words)` changes nothing |
| Blip2Captions.Tidy | scripts/generate-captions_blip2.py:83-88 | `tidy`: strip, collapse each whitespace run to one space, strip again; `TidyNormalForm`, `TidyKeepsText` and `TidyIdempotent` state what it yields |
| Blip2Captions.TidyNormalForm | scripts/generate-captions_blip2.py:84-87 | `tidy` leaves no leading or trailing whitespace and no whitespace other than single spaces |
| Blip2Captions.TidyKeepsText | scripts/generate-captions_blip2.py:84-87 | `tidy` keeps the non-whitespace characters in order, and the words |
| Blip2Captions.TidyFixesTidied | scripts/generate-captions_blip2.py:83-88 | a string already in that normal form is left unchanged |
| Blip2Captions.TidyIdempotent | scripts/generate-captions_blip2.py:83-88 | `tidy(tidy(s)) == tidy(s)` |
| Blip2Captions.GenerateCaption | scripts/generate-captions_blip2.py:208-220 | `generate_caption`: the error caption on any exception, otherwise the clamped tidied rewrite, or the clamped tidied draft when the clamped rewrite, stripped, is under two characters; `GenerateCaptionUntidied` and `GenerateCaptionBound` state its shape and word bound |
| Blip2Captions.GenerateCaptionUntidied | scripts/generate-captions_blip2.py:213-217 | the caption is the clamped rewrite, unless that stripped is under two characters, when it is the clamped draft |
| Blip2Captions.GenerateCaptionBound | scripts/generate-captions_blip2.py:208-220 | every caption, including the fallback and the error caption, has at most 12 words |
| Blip2Captions.ClampedWords | scripts/generate-captions_blip2.py:213 | `clamp_words(s, 12)` has at most 12 words for every `s` |
| Blip2Captions.FallbackWords | scripts/generate-captions_blip2.py:75 | the empty-input fallback has four words |
| Blip2Captions.ErrorCaptionWords | scripts/generate-captions_blip2.py:220 | the error caption has five words |
| Blip2Captions.LastIndexOf | scripts/generate-captions_blip2.py:230 | the last position of a character, or None when it does not occur |
| Blip2Captions.Suffix | scripts/generate-captions_blip2.py:230 | `p.suffix`: the name from its last dot on, or empty when there is no dot or the dot is the first or last character |
| Blip2Captions.IsImage | scripts/generate-captions_blip2.py:230 | the filter `p.suffix.lower() in (".jpg", ".jpeg", ".png", ".webp")`; `IsImageIff` characterises the names it keeps |
| Blip2Captions.IsImageIff | scripts/generate-captions_blip2.py:230 | a name is selected exactly when it ends, in any letter case, with `.jpg`, `.jpeg`, `.png` or `.webp` and is longer than that extension |
| Blip2Captions.ExtensionMakesImage | scripts/generate-captions_blip2.py:230 | a name longer than an extension it ends with, in any case, is selected |
| Blip2Captions.Images | scripts/generate-captions_blip2.py:230 | the selected names in sorted order, the images `process_directory` visits |
| Blip2Captions.ProcessDirectory | scripts/generate-captions_blip2.py:222-253 | a missing directory gives `{}`; otherwise one entry per selected image (none when there are none), keyed `/assets/img/{folder}/{name}`, holding `generate_caption`'s caption for it |
| CaptionFiles.CaptionKey | scripts/generate-captions_blip2.py:238 | the key `/assets/img/{folder}/{name}`; `CaptionKeyInjective` states it is one-to-one within a folder |
| CaptionFiles.CaptionKeyInjective | scripts/generate-captions_blip2.py:238 | different names in one folder get different keys |
| CaptionFiles.SortNames | scripts/generate-captions_blip2.py:230 | `sorted` returns the names permuted into name order |
| CaptionFiles.SortNamesDistinct | scripts/generate-captions_blip2.py:230 | sorting keeps distinct names distinct and keeps the same names |
| CaptionFiles.Select | scripts/generate-captions_blip2.py:230 | the list comprehension keeps exactly the names that pass the test, without introducing duplicates |
| CaptionFiles.StoreCaptions | scripts/generate-captions_blip2.py:237-240 | the loop leaves exactly one entry per image, under its key, holding that image's caption |
| CaptionFiles.KeysOf | scripts/generate-captions_blip2.py:237-240 | the keys the captions of the visited names are stored under; `KeysOfSnoc` states how one more name extends them |
| CaptionFiles.StoreStep | scripts/generate-captions_blip2.py:240 | storing one more image's caption keeps all earlier entries and adds its own |
| CaptionFiles.StoreStepKeys | scripts/generate-captions_blip2.py:240 | storing one more image adds exactly its key, so the dict grows by one |
| CaptionFiles.KeysOfSnoc | scripts/generate-captions_blip2.py:238-240 | the keys of the names so far plus one name add that name's key, which is new when the name is |
| CaptionFiles.StoreKeepsOthers | scripts/generate-captions_blip2.py:240 | writing one key leaves the entries of other names alone |
| SillyCaptions.Prefix | scripts/generate-captions.py:40-61 | the 20 entries of `PREFIXES`, by position |
| SillyCaptions.Suffix | scripts/generate-captions.py:63-90 | the 26 entries of `SUFFIXES`, by position |
| SillyCaptions.Aside | scripts/generate-captions.py:131-147 | the 15 entries of `ASIDES`, by position |
| SillyCaptions.Exaggerations | scripts/generate-captions.py:92-128 | the `(boring, funny)` rewrites of `EXAGGERATIONS`, in source order |
| SillyCaptions.Replace | scripts/generate-captions.py:155 | `str.replace`: every occurrence of the pattern, scanning left to right without overlap, becomes the replacement; the lemmas below state its effect |
| SillyCaptions.ReplaceAbsent | scripts/generate-captions.py:155 | `str.replace` leaves a string without the pattern unchanged |
| SillyCaptions.ReplaceRemoves | scripts/generate-captions.py:155 | when the replacement cannot create a new occurrence, no occurrence of the pattern is left |
| SillyCaptions.ReplaceHead | scripts/generate-captions.py:155 | a string starting with the pattern starts with the replacement afterwards |
| SillyCaptions.CopiedPrefix | scripts/generate-captions.py:155 | up to the first character the replacement could have written, the output copies the input |
| SillyCaptions.ApplyRules | scripts/generate-captions.py:153-155 | the rewrites in list order, each applied to the output of the ones before |
| SillyCaptions.ApplyRulesEmpty | scripts/generate-captions.py:153-155 | rewriting an empty caption gives an empty caption |
| SillyCaptions.ApplyRulesStep | scripts/generate-captions.py:154-155 | each rule is applied to the output of the rules before it |
| SillyCaptions.WomanRuleInert | scripts/generate-captions.py:95-96 | once `man` has been rewritten, the `woman` rule never changes anything: the first four rules act like the first three |
| SillyCaptions.ManRemoves | scripts/generate-captions.py:95 | no `man` survives its rewrite |
| SillyCaptions.NoManNoWoman | scripts/generate-captions.py:96 | a string without `man` has no `woman` |
| SillyCaptions.WomanBecomesWobraveSoul | scripts/generate-captions.py:93-96 | `woman` comes out of the first four rules as `wobrave soul` |
| SillyCaptions.Body | scripts/generate-captions.py:153-158 | the caption lower-cased, rewritten by the exaggerations and with its first character upper-cased |
| SillyCaptions.Capitalize | scripts/generate-captions.py:158 | the first character is upper-cased and the rest kept; an empty body stays empty |
| SillyCaptions.InsertAt | scripts/generate-captions.py:165 | `words.insert(pos, x)` puts `x` at `pos` and shifts the rest one place up |
| SillyCaptions.WithAside | scripts/generate-captions.py:161-166 | with a draw below 0.3 and more than three words, the words rejoined with the drawn aside at the drawn position; otherwise the body unchanged |
| SillyCaptions.Silly | scripts/generate-captions.py:150-172 | `make_silly`: the drawn prefix, a space, the body with its aside, `. ` and the drawn suffix; `SillyFrame`, `AsideWords` and `NoAsideUnchanged` state its parts |
| SillyCaptions.MakeSilly | scripts/generate-captions.py:150-172 | the method computes `make_silly` of the caption with the given draws |
| SillyCaptions.SillyFrame | scripts/generate-captions.py:169-172 | the result is the drawn prefix, a space, the body, `. ` and the drawn suffix |
| SillyCaptions.AsideWords | scripts/generate-captions.py:161-166 | with an aside, the insertion position lies in `[2, len-1]` and the words are the body's with the aside's words at that position |
| SillyCaptions.AsideKeepsEnds | scripts/generate-captions.py:161-166 | an aside keeps the first two words and the last word of the body in place and adds exactly its own words |
| SillyCaptions.InsertedWords | scripts/generate-captions.py:162-166 | inserting a piece among words and rejoining them gives the words with the piece's words at that position |
| SillyCaptions.NoAsideUnchanged | scripts/generate-captions.py:161-166 | without an aside (draw at least 0.3, or three words or fewer) the body is unchanged |
| SillyCaptions.SillyOfEmpty | scripts/generate-captions.py:158-172 | an empty caption gives `{prefix} . {suffix}` |
| SillyCaptions.IsWebp | scripts/generate-captions.py:182 | the pattern `*.webp`: the name ends with `.webp`, letter case mattering |
| SillyCaptions.FolderCaption | scripts/generate-captions.py:195-217 | what is stored for one image: the silly caption of the stripped decoded text, or the fixed error caption when a step raised |
| SillyCaptions.ProcessFolder | scripts/generate-captions.py:175-229 | a missing folder gives `{}`; otherwise one entry per `*.webp` name, keyed `/assets/img/{folder}/{name}`, holding the silly caption or, when captioning raised, the fixed error caption |
| Gallery.JsRem | assets/js/gallery.js:73 | JavaScript's `%` on integers: same remainder class as the dividend, with the sign of the dividend |
| Gallery.WrapIndex | assets/js/gallery.js:73 | `(index + n) % n` with JavaScript's `%`; the next four lemmas state where it lands |
| Gallery.WrapIndexRange | assets/js/gallery.js:73 | for an index not below `-n`, `(index + n) % n` lies in `[0, n)` and leaves an in-range index unchanged |
| Gallery.WrapNext | assets/js/gallery.js:82-84 | one past the last index wraps to 0 |
| Gallery.WrapPrev | assets/js/gallery.js:86-88 | one before index 0 wraps to `n-1` |
| Gallery.WrapBelowRange | assets/js/gallery.js:73 | an index below `-n` is not brought into range: `-n-1` gives `-1` |
| Gallery.Moved | assets/js/gallery.js:67-76 | moving the active mark sets the new slide, clears the old one and touches no other |
| Gallery.MovedOnlyActive | assets/js/gallery.js:67-76 | if only the old slide was active, only the new one is |
| Gallery.StepKeepsOneActive | assets/js/gallery.js:67-76 | a slide change keeps exactly one slide active |
| Gallery.OnlyActiveCount | assets/js/gallery.js:67-76 | a single active slide means an active count of one |
| Gallery.CountOneOnlyActive | assets/js/gallery.js:67-76 | an active count of one means a single active slide |
| Gallery.Remarked | assets/js/gallery.js:68-79 | the indicators are remarked only where an indicator exists at the old and the new index |
| Gallery.Slideshow.constructor | assets/js/gallery.js:22-33 | `init` keeps the slides and indicators found; it binds handlers and starts autoplay only with a container and more than one slide; index 0, not paused |
| Gallery.Slideshow.GoTo | assets/js/gallery.js:63-80 | the current index does nothing; any other index moves to `(index + n) % n` and moves the active marks from the old slide and indicator to the new ones |
| Gallery.Slideshow.Next | assets/js/gallery.js:82-84 | advances by one with wrap-around, moving the marks |
| Gallery.Slideshow.Prev | assets/js/gallery.js:86-88 | goes back by one with wrap-around, moving the marks |
| Gallery.Slideshow.ClickIndicator | assets/js/gallery.js:44-46 | clicking indicator `i` goes to slide `i`, moving the active marks of the slides and indicators; clicking the current one changes no index, slide or indicator |
| Gallery.Slideshow.Tick | assets/js/gallery.js:90-94 | the autoplay tick changes nothing while paused; otherwise it advances by one with wrap-around and moves the active marks of the slides and indicators |
| Gallery.Slideshow.Pause | assets/js/gallery.js:96-98 | sets `isPaused` and nothing else |
| Gallery.Slideshow.Resume | assets/js/gallery.js:100-102 | clears `isPaused` and nothing else |
| Gallery.Slideshow.OnKey | assets/js/gallery.js:56-60 | unless the lightbox is active, ArrowLeft goes back and ArrowRight advances by one with wrap-around, moving the active marks; other keys, or an active lightbox, change nothing |
| Gallery.Sources | assets/js/gallery.js:124-128 | the collected sources are exactly the non-empty `src` values of grid items that have an image |
| Gallery.SourcesOne | assets/js/gallery.js:124-128 | one grid item gives its source when it has an image with a non-empty `src`, and nothing otherwise |
| Gallery.SourcesAppend | assets/js/gallery.js:124-128 | the sources keep grid order: those of two grid parts in a row are the first part's followed by the second's |
| Gallery.CounterText | assets/js/gallery.js:228 | the counter `"{i+1} / {n}"` |
| Gallery.CounterTextInjective | assets/js/gallery.js:228 | the counter `"{i+1} / {n}"` determines both the index and the count |
| Gallery.PreloadSource | assets/js/gallery.js:232-237 | preloading picks a non-empty source from the list, at the normalised index |
| Gallery.Preloads | assets/js/gallery.js:232-238 | the one image `preload` creates, or none when `PreloadSource` finds no source |
| Gallery.PreloadNeighbours | assets/js/gallery.js:196-198 | around an in-range index the preloads are its two wrap-around neighbours |
| Gallery.SwipeOf | assets/js/gallery.js:182-186 | a difference above 50 is next, below -50 is prev, anything else no swipe |
| Gallery.Lightbox.constructor | assets/js/gallery.js:116-131 | `init` finds the element or not; the image and counter elements count as found only inside a found element; it collects the sources, starts at index 0, inactive, with nothing preloaded |
| Gallery.Lightbox.UpdateImage | assets/js/gallery.js:223-230 | shows the current source when the image element exists and the source does, and writes the counter when the counter exists |
| Gallery.Lightbox.Preload | assets/js/gallery.js:232-238 | preloads the source at the normalised index when it exists |
| Gallery.Lightbox.Open | assets/js/gallery.js:190-199 | stores the index as given, updates the image and counter, becomes active and preloads both neighbours |
| Gallery.Lightbox.Close | assets/js/gallery.js:201-204 | clears the active mark |
| Gallery.Lightbox.GoTo | assets/js/gallery.js:206-213 | normalises the index into `[0, len)`, shows that image and its counter and preloads both neighbours |
| Gallery.Lightbox.Next | assets/js/gallery.js:215-217 | goes to `(index + 1 + n) % n` from any stored index (the successor with wrap-around when it was in range), shows that image and its counter and preloads both neighbours |
| Gallery.Lightbox.Prev | assets/js/gallery.js:219-221 | goes to `(index - 1 + n) % n` from any stored index (the predecessor with wrap-around when it was in range), shows that image and its counter and preloads both neighbours |
| Gallery.Lightbox.HandleKey | assets/js/gallery.js:156-170 | keys act only while active: Escape closes, ArrowLeft and ArrowRight step as `prev`/`next` do, with image, counter and preloads; an inactive lightbox or any other key leaves index, image, counter and preloads as they were |
| Gallery.Lightbox.TouchStart | assets/js/gallery.js:176-178 | records the touch start position |
| Gallery.Lightbox.TouchEnd | assets/js/gallery.js:180-187 | records the end position; by the swipe rule on start minus end it steps as `next` or `prev` do, with image, counter and preloads, or leaves index, image, counter and preloads as they were |
| Gallery.Lightbox.OverlayClick | assets/js/gallery.js:151-153 | a click on the overlay itself closes; a click elsewhere changes nothing |
| Gallery.KeyDown | assets/js/gallery.js:56-60 | one keydown runs the slideshow's handler, then the lightbox's (gallery.js:156-170). While the lightbox is closed, the lightbox keeps its index, active mark, image, counter and preloads; a bound slideshow goes back or forward one slide on ArrowLeft/ArrowRight, with wrap-around and the active marks moved. While the lightbox is open, the slideshow keeps its index, slides and indicators; a bound lightbox closes on Escape, shows the wrapped previous or next image with its counter and preloads on the arrows, and otherwise changes nothing. A widget with no bound handler is unchanged |

## Left out

- The ImageMagick conversion, the `which magick` check, `Dir.chdir`, `mkdir_p` and the glob itself are left out. The glob's result is the input list. The conversion's exit status is never checked by the script.
- All `puts`/`print` output and the YAML dump are left out. The model returns the dict that would be dumped.
- The image-captioning and rewrite models, the tokenizers and device selection are left out. Their outputs become plain strings, or `Raised` when a step throws.
- Randomness is left out. `random.random`, `random.randint` and `random.choice` are replaced by their drawn values, which must lie in the ranges the code draws from.
- The DOM, `addEventListener` wiring and `document.body.style` are left out. Found or missing elements are booleans; the "active" classes are flags.
- The `setInterval` timer is left out; only the effect of one tick is modelled.
- `new Image()` is left out; only the list of preloaded sources is kept.
- The case-insensitive glob `*.{jpg,jpeg,heic,png}` is not modelled. The script's input is whatever list it returned.
- The headline/gallery `main` drivers of the two caption scripts are not modelled. They call `process_directory`/`process_folder` once per folder.
- The `SPICE` list is not modelled: `rewrite_make_it_worse` only puts it into the model prompt.
- Text.Lower: only ASCII letters change case. Python's `lower()`/`upper()` also map other Unicode letters.
- Python bytes and encodings are not modelled; strings are sequences of characters.
- SillyCaptions.Prefix: `PREFIXES`, `SUFFIXES` and `ASIDES` are given as lookup tables by position with their lengths. `random.choice(list)` is modelled as picking a position below the length.
- SillyCaptions.Exaggerations: kept as the literal list of pairs in source order.
- SillyCaptions.ProcessFolder: the `*.webp` glob is taken as case-sensitive, as on Linux. Like `Path.glob`, `IsWebp` also accepts names that start with a dot.
- The 0.3 threshold is an exact real. The floating-point draw of `random.random()` is not modelled bit for bit.
- Blip2Captions.ClampWords: `max_words` is a natural number. The default and the only call both use 12; a negative value would slice from the end in Python.
- Gallery.Slideshow.GoTo: requires `index >= -n`. `next` and `prev` pass an index in `[-1, n]`; an indicator click passes any index below the number of indicators, which may exceed the number of slides. From `-n` on the wrap lands in range; `WrapBelowRange` shows that a more negative index would not.
- Gallery.Lightbox.GoTo: requires a non-empty image list. With no images, JavaScript's `% 0` yields `NaN`.
- Gallery.Lightbox.Next, Gallery.Lightbox.Prev, Gallery.Lightbox.HandleKey, Gallery.Lightbox.TouchEnd and Gallery.KeyDown: require a non-empty image list for the same reason. For `HandleKey` and `KeyDown` this also excludes a key on an inactive lightbox, and for `TouchEnd` a touch end without a swipe; neither reaches `% 0` in the script.
- ProcessImages.SortByDate: the model sorts by insertion sort, which is one of the orders `sort_by` may produce. Properties that depend on tie order are not claimed.
- The sequence numbers are not truncated to three characters, because `%03d` never truncates.
- ProcessImages.Basename: takes the part after the last `/`. `File.basename` of a path ending in `/` strips the trailing slash first; glob results never end in one.
