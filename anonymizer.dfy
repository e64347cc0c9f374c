/** The second stage, `anonymize`: every story file is looked up in the
    entity index by the hashed url in its path, split into article and
    abstract, and appended to the bucket of its dataset; at the end each
    bucket is written as two line-aligned files (`anonymize`,
    `create_story_data`). */
module Anonymizer {
  import opened Wrappers
  import opened Strings
  import opened Dicts
  import opened Splitter
  import opened QuestionIndex

  /** One archive member of a story archive: its name and decoded content. */
  datatype StoryEntry = StoryEntry(name: string, content: string)

  /** The fields of `StoryData` that `create_story_data` fills in. */
  datatype StoryData = StoryData(article: string, abstractText: string, dataset: string)

  /** The output buckets, dataset name -> stories in archive order. */
  type Buckets = map<string, seq<StoryData>>

  /** `data = {'training': [], 'validation': [], 'test': []}`. */
  const EmptyBuckets: Buckets := map["training" := [], "validation" := [], "test" := []]

  /** The hashed url in a story path: segment 3 up to its first '.', or the
      IndexError of a path with fewer than four segments. */
  function StoryUrl(name: string): (r: Result<string>)
    ensures r.Err? <==> |Split(name, '/')| < 4
    ensures r.Err? ==> r.error == IndexError
    ensures r.Ok? ==> var segment := Split(name, '/')[3];
      r.value == segment[..IndexOf(segment, '.')] && '.' !in r.value && '/' !in r.value
  {
    var parts := Split(name, '/');
    if |parts| < 4 then Err(IndexError)
    else
      SplitHead(parts[3], '.');
      Ok(Split(parts[3], '.')[0])
  }

  /** What `create_story_data` does with one archive member. */
  function StoryOutcome(e: StoryEntry, index: Index): Outcome<StoryData> {
    if !EndsWith(e.name, "story") then Reject
    else match StoryUrl(e.name)
      case Err(err) => Crash(err)
      case Ok(hashedUrl) =>
        if hashedUrl !in index then Reject
        else if |index[hashedUrl]| == 0 then Crash(IndexError)
        else
          var split := ArtAbs(e.content);
          Accept(StoryData(split.0, split.1, index[hashedUrl][0].1.dataset))
  }

  /** `create_story_data`: skip members whose name does not end in "story"
      or whose url has no questions; otherwise take the dataset of the first
      question of the url and split the content. The method takes the
      script's steps; StoryOutcome states their result. */
  method CreateStoryData(e: StoryEntry, questionsData: Index) returns (r: Outcome<StoryData>)
    ensures r == StoryOutcome(e, questionsData)
  {
    if !EndsWith(e.name, "story") {
      return Reject;
    }
    var parts := Split(e.name, '/');
    if |parts| < 4 {
      return Crash(IndexError);
    }
    var hashedUrl := Split(parts[3], '.')[0];
    if hashedUrl !in questionsData {
      return Reject;
    }
    var qd := questionsData[hashedUrl];
    if |qd| == 0 {
      return Crash(IndexError);
    }
    var dataset := qd[0].1.dataset;
    var article, abstractText := GetArtAbs(e.content);
    return Accept(StoryData(article, abstractText, dataset));
  }

  /** `data[sd.dataset].append(sd)`, or the KeyError of an unknown dataset. */
  function Append(data: Buckets, sd: StoryData): (r: Result<Buckets>)
    ensures r.Err? <==> sd.dataset !in data
    ensures r.Err? ==> r.error == KeyError
    ensures r.Ok? ==> && r.value.Keys == data.Keys
                      && r.value[sd.dataset] == data[sd.dataset] + [sd]
                      && forall n :: n in data && n != sd.dataset ==> r.value[n] == data[n]
  {
    if sd.dataset !in data then Err(KeyError)
    else Ok(data[sd.dataset := data[sd.dataset] + [sd]])
  }

  /** Folding the members of one story archive into the buckets. */
  function Bucket(data: Buckets, entries: seq<StoryEntry>, index: Index): Result<Buckets>
    decreases |entries|
  {
    if |entries| == 0 then Ok(data)
    else match StoryOutcome(entries[0], index)
      case Crash(err) => Err(err)
      case Reject => Bucket(data, entries[1..], index)
      case Accept(sd) =>
        match Append(data, sd)
        case Err(err) => Err(err)
        case Ok(data') => Bucket(data', entries[1..], index)
  }

  /** Continue with the remaining archives after one archive's result. */
  function BucketThen(r: Result<Buckets>, archives: seq<seq<StoryEntry>>, index: Index): Result<Buckets>
    decreases archives, 1
  {
    match r
    case Err(err) => Err(err)
    case Ok(data) => BucketAll(data, archives, index)
  }

  /** Folding all story archives into the buckets, in order. */
  function BucketAll(data: Buckets, archives: seq<seq<StoryEntry>>, index: Index): Result<Buckets>
    decreases archives, 0
  {
    if |archives| == 0 then Ok(data)
    else BucketThen(Bucket(data, archives[0], index), archives[1..], index)
  }

  /** The text of a file that holds each of `lines` followed by a newline:
      empty for no lines, otherwise it begins with the first line and ends
      with the last, each followed by a newline. */
  function FileText(lines: seq<string>): (r: string)
    ensures |lines| == 0 <==> r == ""
    ensures |lines| > 0 ==> StartsWith(r, lines[0] + "\n") && EndsWith(r, lines[|lines| - 1] + "\n")
    decreases |lines|
  {
    if |lines| == 0 then "" else lines[0] + "\n" + FileText(lines[1..])
  }

  function Articles(stories: seq<StoryData>): (r: seq<string>)
    ensures |r| == |stories|
    ensures forall i :: 0 <= i < |r| ==> r[i] == stories[i].article
  {
    seq(|stories|, i requires 0 <= i < |stories| => stories[i].article)
  }

  function Abstracts(stories: seq<StoryData>): (r: seq<string>)
    ensures |r| == |stories|
    ensures forall i :: 0 <= i < |r| ==> r[i] == stories[i].abstractText
  {
    seq(|stories|, i requires 0 <= i < |stories| => stories[i].abstractText)
  }

  /** The source and target files of one dataset. */
  function DatasetFiles(outDir: string, fileName: string, stories: seq<StoryData>): seq<(string, string)> {
    [(outDir + "/src-" + fileName, FileText(Articles(stories))),
     (outDir + "/tgt-" + fileName, FileText(Abstracts(stories)))]
  }

  /** The six output files, as (path, text), in the order they are written. */
  function OutputFiles(outDir: string, data: Buckets): (r: seq<(string, string)>)
    requires "training" in data && "validation" in data && "test" in data
    ensures |r| == 6
    ensures r[0] == (outDir + "/src-" + "train.txt", FileText(Articles(data["training"])))
    ensures r[1] == (outDir + "/tgt-" + "train.txt", FileText(Abstracts(data["training"])))
    ensures r[2] == (outDir + "/src-" + "val.txt", FileText(Articles(data["validation"])))
    ensures r[3] == (outDir + "/tgt-" + "val.txt", FileText(Abstracts(data["validation"])))
    ensures r[4] == (outDir + "/src-" + "test.txt", FileText(Articles(data["test"])))
    ensures r[5] == (outDir + "/tgt-" + "test.txt", FileText(Abstracts(data["test"])))
  {
    DatasetFiles(outDir, "train.txt", data["training"]) +
    DatasetFiles(outDir, "val.txt", data["validation"]) +
    DatasetFiles(outDir, "test.txt", data["test"])
  }

  /** The files `anonymize` writes, or the exception that aborts it first. */
  function AnonymizeSpec(archives: seq<seq<StoryEntry>>, index: Index, outDir: string): Result<seq<(string, string)>> {
    var r := BucketAll(EmptyBuckets, archives, index);
    if r.Err? then Err(r.error)
    else
      BucketAllKeys(EmptyBuckets, archives, index);
      Ok(OutputFiles(outDir, r.value))
  }

  /** `anonymize`: fill the three buckets from all story archives, then
      produce the six output files. */
  method Anonymize(archives: seq<seq<StoryEntry>>, questionsData: Index, outDir: string)
    returns (r: Result<seq<(string, string)>>)
    ensures r == AnonymizeSpec(archives, questionsData, outDir)
  {
    var data := EmptyBuckets;
    for a := 0 to |archives|
      invariant data.Keys == EmptyBuckets.Keys
      invariant BucketAll(data, archives[a..], questionsData) == BucketAll(EmptyBuckets, archives, questionsData)
    {
      var entries := archives[a];
      assert archives[a..][1..] == archives[a + 1..];
      for i := 0 to |entries|
        invariant data.Keys == EmptyBuckets.Keys
        invariant BucketThen(Bucket(data, entries[i..], questionsData), archives[a + 1..], questionsData)
               == BucketAll(EmptyBuckets, archives, questionsData)
      {
        BucketStep(data, entries, i, questionsData);
        var outcome := CreateStoryData(entries[i], questionsData);
        match outcome
        case Crash(err) =>
          return Err(err);
        case Reject =>
        case Accept(sd) =>
          if sd.dataset !in data {
            return Err(KeyError);
          }
          data := data[sd.dataset := data[sd.dataset] + [sd]];
      }
      assert entries[|entries|..] == [];
    }
    assert archives[|archives|..] == [];
    return Ok(OutputFiles(outDir, data));
  }

  /** One member of the fold, at position `i`. */
  lemma BucketStep(data: Buckets, entries: seq<StoryEntry>, i: nat, index: Index)
    requires i < |entries|
    ensures var o := StoryOutcome(entries[i], index);
      Bucket(data, entries[i..], index) ==
        if o.Crash? then Err(o.error)
        else if o.Reject? then Bucket(data, entries[i + 1..], index)
        else if o.value.dataset !in data then Err(KeyError)
        else Bucket(data[o.value.dataset := data[o.value.dataset] + [o.value]], entries[i + 1..], index)
  {
    assert entries[i..][1..] == entries[i + 1..];
  }

  /** The accepted stories of the members, in archive order. */
  function Stories(entries: seq<StoryEntry>, index: Index): seq<StoryData>
    decreases |entries|
  {
    if |entries| == 0 then []
    else match StoryOutcome(entries[0], index)
      case Accept(sd) => [sd] + Stories(entries[1..], index)
      case _ => Stories(entries[1..], index)
  }

  /** The stories of one dataset, in order. */
  function OfDataset(stories: seq<StoryData>, name: string): seq<StoryData>
    decreases |stories|
  {
    if |stories| == 0 then []
    else (if stories[0].dataset == name then [stories[0]] else []) + OfDataset(stories[1..], name)
  }

  /** Bucketing never adds or removes a bucket. */
  lemma {:induction false} BucketKeys(data: Buckets, entries: seq<StoryEntry>, index: Index)
    requires Bucket(data, entries, index).Ok?
    ensures Bucket(data, entries, index).value.Keys == data.Keys
    decreases |entries|
  {
    if |entries| > 0 {
      match StoryOutcome(entries[0], index)
      case Reject => BucketKeys(data, entries[1..], index);
      case Accept(sd) => BucketKeys(Append(data, sd).value, entries[1..], index);
    }
  }

  lemma {:induction false} BucketAllKeys(data: Buckets, archives: seq<seq<StoryEntry>>, index: Index)
    requires BucketAll(data, archives, index).Ok?
    ensures BucketAll(data, archives, index).value.Keys == data.Keys
    decreases |archives|
  {
    if |archives| > 0 {
      var r := Bucket(data, archives[0], index);
      BucketKeys(data, archives[0], index);
      BucketAllKeys(r.value, archives[1..], index);
    }
  }

  /** Each bucket gets exactly the accepted stories of its dataset, appended
      in archive order. */
  lemma {:induction false} BucketContents(data: Buckets, entries: seq<StoryEntry>, index: Index, name: string)
    requires Bucket(data, entries, index).Ok?
    requires name in data
    ensures name in Bucket(data, entries, index).value
    ensures Bucket(data, entries, index).value[name] == data[name] + OfDataset(Stories(entries, index), name)
    decreases |entries|
  {
    if |entries| > 0 {
      match StoryOutcome(entries[0], index)
      case Reject => BucketContents(data, entries[1..], index, name);
      case Accept(sd) =>
        var data' := Append(data, sd).value;
        var rest := Stories(entries[1..], index);
        BucketContents(data', entries[1..], index, name);
        assert Stories(entries, index) == [sd] + rest;
        OfDatasetAppend([sd], rest, name);
        assert OfDataset([sd], name) == if sd.dataset == name then [sd] else [] by {
          assert [sd][1..] == [];
        }
        AppendThenSelect(data, sd, OfDataset(rest, name), name);
    }
  }

  /** Appending one story and then the later stories of one dataset gives
      the bucket plus that dataset's part of the story and the later ones. */
  lemma AppendThenSelect(data: Buckets, sd: StoryData, later: seq<StoryData>, name: string)
    requires sd.dataset in data && name in data
    ensures Append(data, sd).value[name] + later ==
      data[name] + (if sd.dataset == name then [sd] else []) + later
  {
  }

  /** The stage raises exactly when some member raises, or some accepted story
      names a dataset that is not a bucket. */
  lemma {:induction false} BucketFails(data: Buckets, entries: seq<StoryEntry>, index: Index)
    ensures Bucket(data, entries, index).Err? <==>
      exists i :: 0 <= i < |entries| &&
        (StoryOutcome(entries[i], index).Crash? ||
         (StoryOutcome(entries[i], index).Accept? && StoryOutcome(entries[i], index).value.dataset !in data))
    decreases |entries|
  {
    if |entries| > 0 {
      assert forall i :: 1 <= i < |entries| ==> entries[i] == entries[1..][i - 1];
      match StoryOutcome(entries[0], index)
      case Crash(_) =>
      case Reject => BucketFails(data, entries[1..], index);
      case Accept(sd) =>
        if sd.dataset in data {
          BucketFails(Append(data, sd).value, entries[1..], index);
        }
    }
  }

  /** An accepted story carries the dataset of the last record stored under
      the first question id of its url, when the index was built from
      question archives: it is never rejected for lack of questions there. */
  lemma StoryDataset(questions: seq<QuestionEntry>, hash: string -> string, e: StoryEntry)
    requires Build(map[], questions, hash).Ok?
    requires EndsWith(e.name, "story") && StoryUrl(e.name).Ok?
    requires StoryUrl(e.name).value in Build(map[], questions, hash).value
    ensures var h := StoryUrl(e.name).value;
      var rs := Accepted(questions, hash);
      && FirstWith(rs, h).Some?
      && LastWith(rs, h, FirstWith(rs, h).value.questionHash).Some?
      && StoryOutcome(e, Build(map[], questions, hash).value) ==
           Accept(StoryData(ArtAbs(e.content).0, ArtAbs(e.content).1,
                            LastWith(rs, h, FirstWith(rs, h).value.questionHash).value.dataset))
  {
    var h := StoryUrl(e.name).value;
    var idx := Build(map[], questions, hash).value;
    BuildFirstQuestion(map[], questions, hash, h);
    BuildWellFormed(map[], questions, hash);
    GetAt(idx[h], 0);
    BuildGet(map[], questions, hash, h, idx[h][0].0);
  }

  /** Accepted stories hold no newline in article or abstract. */
  lemma StoryOutcomeSingleLine(e: StoryEntry, index: Index)
    requires StoryOutcome(e, index).Accept?
    ensures '\n' !in StoryOutcome(e, index).value.article
    ensures '\n' !in StoryOutcome(e, index).value.abstractText
  {
    ArtAbsSingleLine(e.content);
  }

  /** The file text of lines without newlines splits back into those lines,
      followed by the empty piece after the final newline. */
  lemma {:induction false} FileTextLines(lines: seq<string>)
    requires forall i :: 0 <= i < |lines| ==> '\n' !in lines[i]
    ensures Split(FileText(lines), '\n') == lines + [""]
    decreases |lines|
  {
    if |lines| > 0 {
      FileTextLines(lines[1..]);
      SplitPrefix(lines[0], '\n', FileText(lines[1..]));
      assert lines[0] + "\n" + FileText(lines[1..]) == lines[0] + ['\n'] + FileText(lines[1..]);
      assert [lines[0]] + (lines[1..] + [""]) == lines + [""];
    }
  }

  /** No story in a bucket holds a newline. */
  ghost predicate SingleLine(stories: seq<StoryData>) {
    forall i :: 0 <= i < |stories| ==>
      '\n' !in stories[i].article && '\n' !in stories[i].abstractText
  }

  lemma {:induction false} BucketSingleLine(data: Buckets, entries: seq<StoryEntry>, index: Index, name: string)
    requires Bucket(data, entries, index).Ok?
    requires name in data && SingleLine(data[name])
    ensures name in Bucket(data, entries, index).value
    ensures SingleLine(Bucket(data, entries, index).value[name])
    decreases |entries|
  {
    if |entries| > 0 {
      match StoryOutcome(entries[0], index)
      case Reject => BucketSingleLine(data, entries[1..], index, name);
      case Accept(sd) =>
        StoryOutcomeSingleLine(entries[0], index);
        var data' := Append(data, sd).value;
        BucketSingleLine(data', entries[1..], index, name);
    }
  }

  /** Each story of a bucket writes exactly one line to the source file and
      one line to the target file, at the same position in both. */
  lemma BucketFilesAligned(entries: seq<StoryEntry>, index: Index, name: string)
    requires Bucket(EmptyBuckets, entries, index).Ok?
    requires name in EmptyBuckets
    ensures name in Bucket(EmptyBuckets, entries, index).value
    ensures var stories := Bucket(EmptyBuckets, entries, index).value[name];
      && Split(FileText(Articles(stories)), '\n') == Articles(stories) + [""]
      && Split(FileText(Abstracts(stories)), '\n') == Abstracts(stories) + [""]
  {
    BucketSingleLine(EmptyBuckets, entries, index, name);
    var stories := Bucket(EmptyBuckets, entries, index).value[name];
    FileTextLines(Articles(stories));
    FileTextLines(Abstracts(stories));
  }

  lemma {:induction false} BucketAllSingleLine(data: Buckets, archives: seq<seq<StoryEntry>>, index: Index, name: string)
    requires BucketAll(data, archives, index).Ok?
    requires name in data && SingleLine(data[name])
    ensures name in BucketAll(data, archives, index).value
    ensures SingleLine(BucketAll(data, archives, index).value[name])
    decreases |archives|
  {
    if |archives| > 0 {
      var r := Bucket(data, archives[0], index);
      BucketSingleLine(data, archives[0], index, name);
      BucketAllSingleLine(r.value, archives[1..], index, name);
    }
  }

  /** Accepted stories of two member lists are those of the first, then
      those of the second. */
  lemma {:induction false} StoriesAppend(xs: seq<StoryEntry>, ys: seq<StoryEntry>, index: Index)
    ensures Stories(xs + ys, index) == Stories(xs, index) + Stories(ys, index)
    decreases |xs|
  {
    if |xs| == 0 {
      assert xs + ys == ys;
    } else {
      assert (xs + ys)[0] == xs[0];
      assert (xs + ys)[1..] == xs[1..] + ys;
      StoriesAppend(xs[1..], ys, index);
    }
  }

  /** Selecting one dataset distributes over concatenation. */
  lemma {:induction false} OfDatasetAppend(s: seq<StoryData>, t: seq<StoryData>, name: string)
    ensures OfDataset(s + t, name) == OfDataset(s, name) + OfDataset(t, name)
    decreases |s|
  {
    if |s| == 0 {
      assert s + t == t;
    } else {
      assert (s + t)[0] == s[0];
      assert (s + t)[1..] == s[1..] + t;
      OfDatasetAppend(s[1..], t, name);
    }
  }

  /** Over all archives, each bucket gets exactly the accepted stories of its
      dataset, appended in the order of the archives and their members. */
  lemma {:induction false} BucketAllContents(data: Buckets, archives: seq<seq<StoryEntry>>, index: Index, name: string)
    requires BucketAll(data, archives, index).Ok?
    requires name in data
    ensures name in BucketAll(data, archives, index).value
    ensures BucketAll(data, archives, index).value[name] ==
      data[name] + OfDataset(Stories(Flatten(archives), index), name)
    decreases |archives|
  {
    if |archives| == 0 {
      assert OfDataset(Stories(Flatten(archives), index), name) == [];
    } else {
      var d := Bucket(data, archives[0], index).value;
      BucketContents(data, archives[0], index, name);
      BucketAllContents(d, archives[1..], index, name);
      StoriesAppend(archives[0], Flatten(archives[1..]), index);
      OfDatasetAppend(Stories(archives[0], index), Stories(Flatten(archives[1..]), index), name);
    }
  }

  /** Over all archives, the bucket of one dataset holds exactly that
      dataset's accepted stories, and its source and target texts split back
      into their articles and abstracts, one line per story. */
  lemma BucketAllFiles(archives: seq<seq<StoryEntry>>, index: Index, name: string)
    requires BucketAll(EmptyBuckets, archives, index).Ok?
    requires name in EmptyBuckets
    ensures name in BucketAll(EmptyBuckets, archives, index).value
    ensures var stories := BucketAll(EmptyBuckets, archives, index).value[name];
      && stories == OfDataset(Stories(Flatten(archives), index), name)
      && Split(FileText(Articles(stories)), '\n') == Articles(stories) + [""]
      && Split(FileText(Abstracts(stories)), '\n') == Abstracts(stories) + [""]
  {
    BucketAllContents(EmptyBuckets, archives, index, name);
    BucketAllSingleLine(EmptyBuckets, archives, index, name);
    var stories := BucketAll(EmptyBuckets, archives, index).value[name];
    assert EmptyBuckets[name] + OfDataset(Stories(Flatten(archives), index), name)
        == OfDataset(Stories(Flatten(archives), index), name);
    FileTextLines(Articles(stories));
    FileTextLines(Abstracts(stories));
  }

  /** The six files are the source and target files of training, validation
      and test, in that order. Line i of a source file is the article and
      line i of its target file the abstract of the i-th accepted story of
      that dataset, over all archives in order; each file ends after its
      last story's line. */
  lemma AnonymizeFilesAligned(archives: seq<seq<StoryEntry>>, index: Index, outDir: string)
    requires AnonymizeSpec(archives, index, outDir).Ok?
    ensures var files := AnonymizeSpec(archives, index, outDir).value;
      var stories := Stories(Flatten(archives), index);
      && |files| == 6
      && files[0].0 == outDir + "/src-" + "train.txt" && files[1].0 == outDir + "/tgt-" + "train.txt"
      && files[2].0 == outDir + "/src-" + "val.txt" && files[3].0 == outDir + "/tgt-" + "val.txt"
      && files[4].0 == outDir + "/src-" + "test.txt" && files[5].0 == outDir + "/tgt-" + "test.txt"
      && Split(files[0].1, '\n') == Articles(OfDataset(stories, "training")) + [""]
      && Split(files[1].1, '\n') == Abstracts(OfDataset(stories, "training")) + [""]
      && Split(files[2].1, '\n') == Articles(OfDataset(stories, "validation")) + [""]
      && Split(files[3].1, '\n') == Abstracts(OfDataset(stories, "validation")) + [""]
      && Split(files[4].1, '\n') == Articles(OfDataset(stories, "test")) + [""]
      && Split(files[5].1, '\n') == Abstracts(OfDataset(stories, "test")) + [""]
  {
    BucketAllFiles(archives, index, "training");
    BucketAllFiles(archives, index, "validation");
    BucketAllFiles(archives, index, "test");
  }
}
