# Anonymized CNN/Daily Mail stories, modelled in Dafny

`create_anonymized_stories.py` prepares the CNN/Daily Mail summarisation data
in two stages.

- `map_qd` reads every question file of the question archives. From each one
  it takes the hashed url of the story, a question id, the dataset it belongs
  to (training, validation or test) and the entity mapping. The entity mapping
  is the trailing block of `number:name` lines. These records are gathered
  into a nested index, hashed url -> question id -> record.
- `anonymize` reads every story file of the story archives. It looks the
  story up in the index by the hashed url in its path, takes the dataset of
  the first question recorded for that url, and splits the story into an
  article and an abstract. The highlights form the abstract. The story is
  then appended to the bucket of its dataset. Each bucket is finally written
  as a source file of articles and a target file of abstracts, one line per
  story.

The model follows this structure, one module per concern:

| module | file | what it holds |
|---|---|---|
| `Wrappers` | wrappers.dfy | `Option`, and the `Result`/`Outcome` types for skips and exceptions |
| `Strings` | strings.dfy | the Python string operations used: `in`, `startswith`, `endswith`, `split`, `split(c, 1)`, `join`, `replace`, `lower` |
| `Dicts` | dicts.dfy | Python's insertion-ordered dict as a sequence of (key, value) pairs |
| `Splitter` | splitter.dfy | `fix_missing_period` and `get_art_abs` |
| `EntityMapping` | entity_mapping.dfy | the backward scan of `find_entities_and_url` |
| `QuestionIndex` | question_index.dfy | `create_question_data` and `map_questions_data` |
| `Anonymizer` | anonymizer.dfy | `create_story_data`, the bucketing in `anonymize` and the output files |
| `Substituter` | substituter.dfy | `anonymize_story` (defined in the script but never called) |

Five of the script's loops are Dafny `method`s with `for`/`while` loops:
- the flag loop of `get_art_abs` (`ClassifyLines`);
- the backward scan of `find_entities_and_url` (`FindEntitiesAndUrl`);
- the nested insertion loops of `map_questions_data` (`MapQuestionsData`);
- the nested bucketing loops of `anonymize` (`Anonymize`);
- the reassigning loop of `anonymize_story` (`AnonymizeStory`).

Each is proved against a recursive specification function: `Classify`,
`Mapping`, `BuildAll`, `AnonymizeSpec` and `Substitute` respectively. The
script's promises are then proved about those functions as lemmas. The
writing loops of `anonymize` produce file text as a value, so they are the
functions `OutputFiles` and `FileText` (see "## Left out").

Some conventions run through the model:

- An uncaught Python exception ends the whole run. It is modelled as
  `Crash(IndexError | KeyError)` for one member, and as `Err` for the stage
  it aborts.
- A member the script skips with a bare `return` is `Reject`.
- SHA-1 (`hashhex`) is an uninterpreted parameter `hash: string -> string`.
- The output files are produced as a value: the six (path, text) pairs in
  the order in which they are written.

Four details of the code shape the model:

- The marker test is `line.startswith("@highlight")`, not equality with the
  marker (create_anonymized_stories.py:118).
- `fix_missing_period` appends `"."` with no space before it
  (create_anonymized_stories.py:135).
- `fix_missing_period` compares the last character alone against
  `END_TOKENS`, so the entry `"..."` can never match
  (create_anonymized_stories.py:134).
- `anonymize_story` only replaces a name that has a space before it, so a
  name at the very start of the text is kept. With mapping `{"1": "tom"}`
  the text `"tom went to paris ."` is left unchanged, because its first word
  has no space before it (`Substituter.NameAtStartIsKept`).

## Model

| member | source | states |
|---|---|---|
| Strings.SplitOnce | create_anonymized_stories.py:44 | `split(':', 1)` unpacked: no value exactly when there is no colon; otherwise the line is before + ":" + after, and before holds no colon |
| Strings.Split | create_anonymized_stories.py:28 | the pieces of `split(sep)`: at least one, and none holds the separator |
| Strings.JoinSplit | create_anonymized_stories.py:106 | joining the pieces of a split back with the separator gives the original text |
| Strings.Join | create_anonymized_stories.py:125-127 | `' '.join(parts)` is empty for no parts, and otherwise begins with the first part and ends with the last |
| Strings.Contains | create_anonymized_stories.py:132 | `p in s` holds exactly when p occurs in s at some position |
| Strings.StartsWith | create_anonymized_stories.py:118 | `s.startswith(p)` holds exactly when p is no longer than s and agrees with s character by character from the front |
| Strings.EndsWith | create_anonymized_stories.py:87 | `s.endswith(p)` holds exactly when p is no longer than s and agrees with the last characters of s |
| Strings.SplitHead | create_anonymized_stories.py:30 | `split('.')[0]` is the text before the first '.' |
| Strings.Lower | create_anonymized_stories.py:108 | `lower()` keeps the length and maps each character on its own |
| Strings.LowerKeepsNewlines | create_anonymized_stories.py:108 | lower-casing neither adds nor removes newlines |
| Strings.ReplaceAllIdentity | create_anonymized_stories.py:139-140 | `replace(p, r)` leaves the text unchanged exactly when p does not occur in it or p equals r |
| Strings.ReplaceAll | create_anonymized_stories.py:139-140 | `replace(p, rep)`: a replacement no longer (no shorter) than p never lengthens (shortens) the text, and a text holding p gives a result holding the replacement |
| Strings.ReplaceSkipsPrefix | create_anonymized_stories.py:139-140 | a prefix without the pattern's first character is left as it is by `replace` |
| Dicts.Put | create_anonymized_stories.py:45 | `d[k] = v`: a new key is appended at the end and nothing else changes; a present key keeps its position, every other pair keeps its position, and only k's value becomes v; keys stay unique |
| Dicts.GetAt | create_anonymized_stories.py:92-96 | with unique keys, looking up the key at a position finds the value at that position |
| Splitter.EndTokenChars | create_anonymized_stories.py:52-54 | the single characters that are end tokens are exactly . ! ? ' ` " ) and the two closing quotes |
| Splitter.FixMissingPeriod | create_anonymized_stories.py:131-135 | the result is the line or the line plus "."; a non-empty result without a marker ends in an end token |
| Splitter.FixMissingPeriodChanges | create_anonymized_stories.py:131-135 | the line changes exactly when it holds no marker, is not empty and does not end in an end token, and then exactly one "." is appended |
| Splitter.FixMissingPeriodIdempotent | create_anonymized_stories.py:131-135 | fixing a line twice gives the same as fixing it once |
| Splitter.FirstMarker | create_anonymized_stories.py:118-119 | the position of the first line starting with "@highlight", or the number of lines when there is none |
| Splitter.ContentMembers | create_anonymized_stories.py:116-123 | the lines appended to either list are exactly the non-empty lines that do not start with the marker |
| Splitter.ClassifyLines | create_anonymized_stories.py:112-127 | the flag loop gives the joined content lines before the first marker as article, and those after it as abstract |
| Splitter.GetArtAbs | create_anonymized_stories.py:105-129 | article and abstract of the story split on newlines, lower-cased and with missing periods fixed, as the loop computes them |
| Splitter.ArtAbsPartition | create_anonymized_stories.py:112-123 | article lines then abstract lines are all the content lines of the story, in order, each used once |
| Splitter.ArtAbsRouting | create_anonymized_stories.py:114-123 | a line is an article line exactly when it is non-empty and before the first marker; it is an abstract line exactly when it is a non-marker, non-empty line after it |
| Splitter.NoMarkerEmptyAbstract | create_anonymized_stories.py:114-127 | a story without marker lines has an empty abstract |
| Splitter.NoMarkerNonEmptyArticle | create_anonymized_stories.py:114-125 | a story without marker lines and with some non-empty line has a non-empty article |
| Splitter.ArtAbsSingleLine | create_anonymized_stories.py:106-127 | neither article nor abstract holds a newline |
| EntityMapping.TrailingCount | create_anonymized_stories.py:42-47 | the length of the trailing block of colon lines: all of them hold a colon, and the line above the block does not |
| EntityMapping.BlockPairs | create_anonymized_stories.py:44 | one (key, value) pair per block line, split at its first colon |
| EntityMapping.FindEntitiesAndUrl | create_anonymized_stories.py:37-48 | an IndexError for an empty file; otherwise the hashed first line and the mapping of the backward scan with its break |
| EntityMapping.MappingSpec | create_anonymized_stories.py:41-47 | each key maps to the value of the topmost block line with that key (written last), only block keys occur, and no key occurs twice |
| EntityMapping.ScanGet | create_anonymized_stories.py:42-45 | the scan finds the topmost block value for a key the block mentions, and otherwise keeps what the mapping had |
| EntityMapping.MappingEmpty | create_anonymized_stories.py:42-47 | the mapping is empty exactly when the file has no lines or its last line holds no colon |
| EntityMapping.ScanStops | create_anonymized_stories.py:46-47 | lines at and above the first colon-free line from the end do not affect the mapping |
| QuestionIndex.CreateQuestionData | create_anonymized_stories.py:26-35 | the outcome of one archive member, as QuestionOutcome defines it |
| QuestionIndex.QuestionOutcomeCases | create_anonymized_stories.py:27-35 | a member is skipped exactly when its path does not end in ".question" or its mapping is empty, and raises exactly for a short path or an empty file; an accepted record has dataset = segment 3, id = segment 4 before its first '.', the hashed first line and the non-empty mapping |
| QuestionIndex.FirstWith | create_anonymized_stories.py:18 | the first record with a url: it exists exactly when some record has that url, and no earlier record has it |
| QuestionIndex.LastWith | create_anonymized_stories.py:19 | the last record with a url and id: it exists exactly when some record has both, and no later record has them |
| QuestionIndex.Insert | create_anonymized_stories.py:18-19 | `data[h][q] = qd`: h becomes a url of the index (with the inner dict `{q: qd}` when new), q under h finds qd, other ids under h and other urls keep their records |
| QuestionIndex.MapQuestionsData | create_anonymized_stories.py:9-24 | the nested loops with in-place insertion compute BuildAll over the archives, or its exception |
| QuestionIndex.InsertWellFormed | create_anonymized_stories.py:18-19 | an insertion keeps every url non-empty, every record under its own url and id, and ids unique |
| QuestionIndex.BuildFails | create_anonymized_stories.py:14-16 | the stage raises exactly when some member raises |
| QuestionIndex.BuildKeys | create_anonymized_stories.py:15-18 | the urls of the index are exactly the urls of the accepted records |
| QuestionIndex.BuildGet | create_anonymized_stories.py:15-19 | `data[h][q]` is the last accepted record with url h and id q |
| QuestionIndex.BuildWellFormed | create_anonymized_stories.py:10-19 | the built index is well formed |
| QuestionIndex.BuildFirstQuestion | create_anonymized_stories.py:18-19 | the first question id under a url is that of the first accepted record with that url |
| QuestionIndex.BuildAppend | create_anonymized_stories.py:14-19 | building over two member lists is building over the first, then the second |
| QuestionIndex.RejectedChangesNothing | create_anonymized_stories.py:16 | a skipped member changes the result nothing |
| QuestionIndex.BuildAllFlatten | create_anonymized_stories.py:11-14 | building archive by archive is building over all their members in order |
| Substituter.SpacedName | create_anonymized_stories.py:139 | the pattern is the name between two spaces: it starts and ends with a space and is two characters longer than the name |
| Substituter.QuotedName | create_anonymized_stories.py:140 | the pattern is a space, the name and an apostrophe: it starts with a space, ends with "'" and is two characters longer than the name |
| Substituter.AnonymizeStory | create_anonymized_stories.py:137-141 | the reassigning loop computes Substitute: the entries applied in mapping order |
| Substituter.StepUnchanged | create_anonymized_stories.py:139-140 | an entry whose two patterns do not occur leaves the text unchanged |
| Substituter.SubstituteUnchanged | create_anonymized_stories.py:137-141 | the text is unchanged when no entry's patterns occur in it |
| Substituter.StepKeepsLeadingWord | create_anonymized_stories.py:139-140 | one entry never touches text before the first space |
| Substituter.LeadingWordKept | create_anonymized_stories.py:137-141 | the first word of the text is never replaced, whatever the mapping |
| Substituter.NameAtStartIsKept | create_anonymized_stories.py:137-141 | with mapping {"1": "tom"}, "tom went to paris ." does not become "1 went to paris ." |
| Anonymizer.StoryUrl | create_anonymized_stories.py:88 | the IndexError exactly for a path with fewer than four '/'-segments; otherwise segment 3 before its first '.', holding neither '.' nor '/' |
| Anonymizer.Append | create_anonymized_stories.py:68 | `data[sd.dataset].append(sd)`: a KeyError exactly when the dataset has no bucket; otherwise that bucket gains sd at its end and the other buckets are unchanged |
| Anonymizer.FileText | create_anonymized_stories.py:76-81 | the text of lines each written with a trailing newline: empty exactly for no lines, otherwise it begins with the first line and ends with the last, each followed by a newline |
| Anonymizer.OutputFiles | create_anonymized_stories.py:73-81 | the six files in write order: src and tgt of train.txt, val.txt, test.txt under the output directory, holding the articles and the abstracts of training, validation and test |
| Anonymizer.CreateStoryData | create_anonymized_stories.py:86-103 | the outcome of one story member, as StoryOutcome defines it |
| Anonymizer.Anonymize | create_anonymized_stories.py:58-82 | the nested loops and the appends compute AnonymizeSpec: the six output files, or the exception |
| Anonymizer.BucketStep | create_anonymized_stories.py:66-68 | one member of the bucketing: raise, skip, KeyError for an unknown dataset, or append |
| Anonymizer.BucketKeys | create_anonymized_stories.py:60-68 | bucketing never adds or removes a bucket |
| Anonymizer.BucketAllKeys | create_anonymized_stories.py:60-71 | over all archives the buckets stay exactly training, validation and test |
| Anonymizer.BucketContents | create_anonymized_stories.py:65-68 | each bucket gets exactly the accepted stories of its dataset, appended in archive order |
| Anonymizer.BucketFails | create_anonymized_stories.py:65-68 | the stage raises exactly when some member raises or an accepted story names a dataset without a bucket |
| Anonymizer.StoryDataset | create_anonymized_stories.py:92-96 | for an index built from question files, a story whose url is present is never dropped and takes the dataset of the last record stored under the first question id of that url |
| Anonymizer.StoryOutcomeSingleLine | create_anonymized_stories.py:100-103 | an accepted story holds no newline in its article or abstract |
| Anonymizer.FileTextLines | create_anonymized_stories.py:76-81 | a file written line by line from newline-free lines splits back into those lines plus an empty last piece |
| Anonymizer.BucketSingleLine | create_anonymized_stories.py:65-68 | bucketing keeps every story in a bucket newline-free |
| Anonymizer.BucketAllSingleLine | create_anonymized_stories.py:62-71 | over all archives every story in a bucket stays newline-free |
| Anonymizer.BucketFilesAligned | create_anonymized_stories.py:74-81 | the source and target files of one bucket hold exactly its articles and abstracts, one line each |
| Anonymizer.StoriesAppend | create_anonymized_stories.py:62-67 | the accepted stories of two member lists are those of the first, then those of the second |
| Anonymizer.OfDatasetAppend | create_anonymized_stories.py:68 | selecting one dataset's stories distributes over concatenation |
| Anonymizer.BucketAllContents | create_anonymized_stories.py:62-71 | over all archives each bucket gets exactly the accepted stories of its dataset, in the order of archives and members |
| Anonymizer.BucketAllFiles | create_anonymized_stories.py:62-81 | over all archives a bucket holds exactly its dataset's accepted stories, and its src and tgt texts split back into their articles and abstracts, one line per story |
| Anonymizer.AnonymizeFilesAligned | create_anonymized_stories.py:62-81 | the six files are src/tgt of train, val and test in that order; line i of a src file is the article and line i of its tgt file the abstract of the i-th accepted story of that dataset over all archives, and nothing else is in them |

## Left out

- Reading tar archives and `extractfile` (create_anonymized_stories.py:12, 38, 63, 98)
  is left out. An archive is a sequence of members: (path, lines) for
  questions, and (name, decoded content) for stories.
- Pickle persistence of the index (create_anonymized_stories.py:23, 59, 143-150)
  is left out. The index built by the first stage is passed to the second
  stage as a value.
- Writing the output files (create_anonymized_stories.py:75-81) is modelled as
  the list of (path, text) pairs. Opening, truncating and closing files are not
  modelled.
- SHA-1 (`hashhex`, create_anonymized_stories.py:152-155) is a library call. It
  is the uninterpreted parameter `hash`.
- Progress counters and `print`s, `argparse` and `main` with its hard-coded paths
  (create_anonymized_stories.py:20-21, 69-71, 157-183), and the commented-out
  index removal (create_anonymized_stories.py:84) are left out. None of them is
  live logic.
- Byte decoding of question lines is left out. A line that fails to decode
  ends the scan like a line without a colon, through the same bare `except`
  (create_anonymized_stories.py:44-47).
- `strip()` (create_anonymized_stories.py:39-40) is left out: question lines
  are taken as already stripped.
- Strings.Lower: models `lower()` as ASCII lower-casing only; Unicode case
  mapping is not modelled.
- `StoryData` is reduced to the three fields `create_story_data` fills in
  (article, abstract, dataset). The other five fields are always `None`.
- The lookup of the entity mapping in `create_story_data`
  (create_anonymized_stories.py:95) is omitted: its value is never used. It
  cannot fail on its own, because it reads the same record as the dataset
  lookup on the next line, and every record carries both fields.
- The outer dictionary of the index is a Dafny `map`: its order is never
  observed. The inner dictionary, whose first key matters
  (create_anonymized_stories.py:93-96), keeps insertion order.
- I/O failures, such as a missing archive or an output directory that cannot
  be written, are not modelled.
