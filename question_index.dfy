/** The first stage, `map_qd`: every question file of the question archives
    is parsed into a record, and the records are gathered into the entity
    index, hashed url -> question id -> record (`map_questions_data`,
    `create_question_data`). */
module QuestionIndex {
  import opened Wrappers
  import opened Strings
  import opened Dicts
  import opened EntityMapping

  /** `QuestionData`: what one question file contributes to the index. */
  datatype QuestionData = QuestionData(
    hashedUrl: string, questionHash: string, dataset: string, entityMapping: Dict<string>)

  /** One archive member: its path and its (stripped) lines. */
  datatype QuestionEntry = QuestionEntry(path: string, lines: seq<string>)

  /** The entity index: hashed url -> question id -> record, the inner
      dictionary in insertion order. */
  type Index = map<string, Dict<QuestionData>>

  /** What `create_question_data` does with one archive member. */
  function QuestionOutcome(e: QuestionEntry, hash: string -> string): Outcome<QuestionData> {
    if !EndsWith(e.path, ".question") then Reject
    else
      var parts := Split(e.path, '/');
      if |parts| < 5 then Crash(IndexError)
      else if |e.lines| == 0 then Crash(IndexError)
      else
        var mapping := Mapping(e.lines);
        if mapping == [] then Reject
        else Accept(QuestionData(hash(e.lines[0]), Split(parts[4], '.')[0], parts[3], mapping))
  }

  /** `create_question_data`: skip members that are not question files or
      have no entity mapping; otherwise take the dataset from path segment 3,
      the question id from segment 4 up to its first '.', and hash the first line.
      The method takes the script's steps; QuestionOutcome states their result. */
  method CreateQuestionData(e: QuestionEntry, hash: string -> string) returns (r: Outcome<QuestionData>)
    ensures r == QuestionOutcome(e, hash)
  {
    if !EndsWith(e.path, ".question") {
      return Reject;
    }
    var splitedPath := Split(e.path, '/');
    if |splitedPath| < 5 {
      return Crash(IndexError);
    }
    var dataset := splitedPath[3];
    var questionHash := Split(splitedPath[4], '.')[0];
    var found := FindEntitiesAndUrl(e.lines, hash);
    if found.Err? {
      return Crash(found.error);
    }
    var (entityMapping, hashedUrl) := found.value;
    if entityMapping == [] {
      return Reject;
    }
    return Accept(QuestionData(hashedUrl, questionHash, dataset, entityMapping));
  }

  /** A member is skipped exactly when its path does not end in ".question",
      or it is a well-formed question file whose last line holds no colon
      (its entity mapping is empty); it raises exactly when its path has fewer
      than five segments or the file is empty. An accepted record takes its
      dataset from segment 3, its id from segment 4 before the first '.', its
      hashed url from the first line, and a non-empty mapping. */
  lemma QuestionOutcomeCases(e: QuestionEntry, hash: string -> string)
    ensures var parts := Split(e.path, '/');
      && (QuestionOutcome(e, hash).Reject? <==>
           (!EndsWith(e.path, ".question") ||
            (|parts| >= 5 && |e.lines| > 0 && ':' !in e.lines[|e.lines| - 1])))
      && (QuestionOutcome(e, hash).Crash? <==>
           EndsWith(e.path, ".question") && (|parts| < 5 || |e.lines| == 0))
      && (QuestionOutcome(e, hash).Accept? ==>
           var qd := QuestionOutcome(e, hash).value;
           && qd.dataset == parts[3]
           && qd.questionHash == parts[4][..IndexOf(parts[4], '.')]
           && '.' !in qd.questionHash
           && qd.hashedUrl == hash(e.lines[0])
           && qd.entityMapping == Mapping(e.lines)
           && qd.entityMapping != [])
  {
    var parts := Split(e.path, '/');
    if |e.lines| > 0 {
      MappingEmpty(e.lines);
    }
    if |parts| >= 5 {
      SplitHead(parts[4], '.');
    }
  }

  /** `data[hashed_url][question_hash] = qd`, creating the inner dictionary
      when the url is new. */
  function Insert(data: Index, qd: QuestionData): (r: Index)
    ensures r.Keys == data.Keys + {qd.hashedUrl}
    ensures forall h :: h in data && h != qd.hashedUrl ==> r[h] == data[h]
    ensures qd.hashedUrl !in data ==> r[qd.hashedUrl] == [(qd.questionHash, qd)]
    ensures Get(r[qd.hashedUrl], qd.questionHash) == Some(qd)
    ensures qd.hashedUrl in data ==> forall q :: q != qd.questionHash ==>
      Get(r[qd.hashedUrl], q) == Get(data[qd.hashedUrl], q)
  {
    var inner := if qd.hashedUrl in data then data[qd.hashedUrl] else [];
    data[qd.hashedUrl := Put(inner, qd.questionHash, qd)]
  }

  /** Folding the members of one archive into the index, or the exception
      that aborts the stage. */
  function Build(data: Index, entries: seq<QuestionEntry>, hash: string -> string): Result<Index>
    decreases |entries|
  {
    if |entries| == 0 then Ok(data)
    else match QuestionOutcome(entries[0], hash)
      case Crash(err) => Err(err)
      case Reject => Build(data, entries[1..], hash)
      case Accept(qd) => Build(Insert(data, qd), entries[1..], hash)
  }

  /** Continue with the remaining archives after one archive's result. */
  function Then(r: Result<Index>, archives: seq<seq<QuestionEntry>>, hash: string -> string): Result<Index>
    decreases archives, 1
  {
    match r
    case Err(err) => Err(err)
    case Ok(data) => BuildAll(data, archives, hash)
  }

  /** Folding all archives into the index, in order. */
  function BuildAll(data: Index, archives: seq<seq<QuestionEntry>>, hash: string -> string): Result<Index>
    decreases archives, 0
  {
    if |archives| == 0 then Ok(data)
    else Then(Build(data, archives[0], hash), archives[1..], hash)
  }

  /** `map_questions_data`: build the index from all archives in order, by
      update in place. An exception raised by any member ends the stage. */
  method MapQuestionsData(archives: seq<seq<QuestionEntry>>, hash: string -> string)
    returns (r: Result<Index>)
    ensures r == BuildAll(map[], archives, hash)
  {
    var data: Index := map[];
    for a := 0 to |archives|
      invariant BuildAll(data, archives[a..], hash) == BuildAll(map[], archives, hash)
    {
      var entries := archives[a];
      assert archives[a..][1..] == archives[a + 1..];
      for i := 0 to |entries|
        invariant Then(Build(data, entries[i..], hash), archives[a + 1..], hash)
               == BuildAll(map[], archives, hash)
      {
        BuildStep(data, entries, i, hash);
        var outcome := CreateQuestionData(entries[i], hash);
        match outcome
        case Crash(err) =>
          return Err(err);
        case Reject =>
        case Accept(rec) =>
          ghost var before := data;
          var hashedUrl := rec.hashedUrl;
          if hashedUrl !in data {
            data := data[hashedUrl := []];
          }
          data := data[hashedUrl := Put(data[hashedUrl], rec.questionHash, rec)];
          assert data == Insert(before, rec);
      }
      assert entries[|entries|..] == [];
    }
    assert archives[|archives|..] == [];
    return Ok(data);
  }

  /** One member of the fold, at position `i`. */
  lemma BuildStep(data: Index, entries: seq<QuestionEntry>, i: nat, hash: string -> string)
    requires i < |entries|
    ensures var o := QuestionOutcome(entries[i], hash);
      Build(data, entries[i..], hash) ==
        if o.Crash? then Err(o.error)
        else if o.Reject? then Build(data, entries[i + 1..], hash)
        else Build(Insert(data, o.value), entries[i + 1..], hash)
  {
    assert entries[i..][1..] == entries[i + 1..];
  }

  /** The records of the accepted members, in archive order. */
  function Accepted(entries: seq<QuestionEntry>, hash: string -> string): seq<QuestionData>
    decreases |entries|
  {
    if |entries| == 0 then []
    else match QuestionOutcome(entries[0], hash)
      case Accept(qd) => [qd] + Accepted(entries[1..], hash)
      case _ => Accepted(entries[1..], hash)
  }

  /** The first record with hashed url `h`. */
  function FirstWith(rs: seq<QuestionData>, h: string): (r: Option<QuestionData>)
    ensures r.Some? <==> exists i :: 0 <= i < |rs| && rs[i].hashedUrl == h
    ensures r.Some? ==> (r.value.hashedUrl == h &&
      exists i :: 0 <= i < |rs| && rs[i] == r.value && forall j :: 0 <= j < i ==> rs[j].hashedUrl != h)
    decreases |rs|
  {
    if |rs| == 0 then None
    else if rs[0].hashedUrl == h then Some(rs[0])
    else
      var r := FirstWith(rs[1..], h);
      assert forall i :: 1 <= i < |rs| ==> rs[i] == rs[1..][i - 1];
      r
  }

  /** The last record with hashed url `h` and question id `q`. */
  function LastWith(rs: seq<QuestionData>, h: string, q: string): (r: Option<QuestionData>)
    ensures r.Some? <==> exists i :: 0 <= i < |rs| && rs[i].hashedUrl == h && rs[i].questionHash == q
    ensures r.Some? ==> (r.value.hashedUrl == h && r.value.questionHash == q &&
      exists i :: 0 <= i < |rs| && rs[i] == r.value &&
        forall j :: i < j < |rs| ==> !(rs[j].hashedUrl == h && rs[j].questionHash == q))
    decreases |rs|
  {
    if |rs| == 0 then None
    else
      var r := LastWith(rs[1..], h, q);
      assert forall i :: 1 <= i < |rs| ==> rs[i] == rs[1..][i - 1];
      if r.Some? then r
      else if rs[0].hashedUrl == h && rs[0].questionHash == q then Some(rs[0])
      else None
  }

  /** Every url has at least one question; each record sits under its own
      url and id; ids are unique per url. */
  ghost predicate WellFormed(data: Index) {
    forall h :: h in data ==>
      && |data[h]| > 0
      && UniqueKeys(data[h])
      && forall j :: 0 <= j < |data[h]| ==>
           data[h][j].1.hashedUrl == h && data[h][j].0 == data[h][j].1.questionHash
  }

  lemma InsertWellFormed(data: Index, qd: QuestionData)
    requires WellFormed(data)
    ensures WellFormed(Insert(data, qd))
  {
    var inner := if qd.hashedUrl in data then data[qd.hashedUrl] else [];
    var r := Put(inner, qd.questionHash, qd);
    forall j | 0 <= j < |r|
      ensures r[j].1.hashedUrl == qd.hashedUrl && r[j].0 == r[j].1.questionHash
    {
      if r[j] != (qd.questionHash, qd) {
        var i :| 0 <= i < |inner| && inner[i] == r[j];
      }
    }
  }

  /** The stage raises exactly when some member raises. */
  lemma {:induction false} BuildFails(data: Index, entries: seq<QuestionEntry>, hash: string -> string)
    ensures Build(data, entries, hash).Err? <==>
      exists i :: 0 <= i < |entries| && QuestionOutcome(entries[i], hash).Crash?
    decreases |entries|
  {
    if |entries| > 0 {
      assert forall i :: 1 <= i < |entries| ==> entries[i] == entries[1..][i - 1];
      match QuestionOutcome(entries[0], hash)
      case Crash(_) =>
      case Reject => BuildFails(data, entries[1..], hash);
      case Accept(qd) => BuildFails(Insert(data, qd), entries[1..], hash);
    }
  }

  /** The urls of the index are the urls it started with plus those of the
      accepted records. */
  lemma {:induction false} BuildKeys(data: Index, entries: seq<QuestionEntry>, hash: string -> string, h: string)
    requires Build(data, entries, hash).Ok?
    ensures h in Build(data, entries, hash).value <==>
      h in data || FirstWith(Accepted(entries, hash), h).Some?
    decreases |entries|
  {
    if |entries| > 0 {
      match QuestionOutcome(entries[0], hash)
      case Reject => BuildKeys(data, entries[1..], hash, h);
      case Accept(qd) => BuildKeys(Insert(data, qd), entries[1..], hash, h);
    }
  }

  /** Under url `h` and id `q` the index holds the last accepted record with
      that url and id, or what it held before when there is none. */
  lemma {:induction false} BuildGet(data: Index, entries: seq<QuestionEntry>, hash: string -> string, h: string, q: string)
    requires Build(data, entries, hash).Ok?
    requires h in Build(data, entries, hash).value
    ensures var rs := Accepted(entries, hash);
      Get(Build(data, entries, hash).value[h], q) ==
        if LastWith(rs, h, q).Some? then LastWith(rs, h, q)
        else if h in data then Get(data[h], q) else None
    decreases |entries|
  {
    if |entries| > 0 {
      match QuestionOutcome(entries[0], hash)
      case Reject => BuildGet(data, entries[1..], hash, h, q);
      case Accept(qd) => BuildGet(Insert(data, qd), entries[1..], hash, h, q);
    }
  }

  /** Building keeps the index well formed. */
  lemma {:induction false} BuildWellFormed(data: Index, entries: seq<QuestionEntry>, hash: string -> string)
    requires WellFormed(data)
    requires Build(data, entries, hash).Ok?
    ensures WellFormed(Build(data, entries, hash).value)
    decreases |entries|
  {
    if |entries| > 0 {
      match QuestionOutcome(entries[0], hash)
      case Reject => BuildWellFormed(data, entries[1..], hash);
      case Accept(qd) =>
        InsertWellFormed(data, qd);
        BuildWellFormed(Insert(data, qd), entries[1..], hash);
    }
  }

  /** The first question id under a new url is that of the first accepted
      record with that url: later records never move it. */
  lemma {:induction false} BuildFirstQuestion(data: Index, entries: seq<QuestionEntry>, hash: string -> string, h: string)
    requires WellFormed(data)
    requires Build(data, entries, hash).Ok?
    requires h in Build(data, entries, hash).value
    ensures h !in data ==> FirstWith(Accepted(entries, hash), h).Some?
    ensures var idx := Build(data, entries, hash).value;
      |idx[h]| > 0 &&
      idx[h][0].0 ==
        if h in data then data[h][0].0 else FirstWith(Accepted(entries, hash), h).value.questionHash
    decreases |entries|
  {
    BuildWellFormed(data, entries, hash);
    if |entries| > 0 {
      match QuestionOutcome(entries[0], hash)
      case Reject => BuildFirstQuestion(data, entries[1..], hash, h);
      case Accept(qd) =>
        InsertWellFormed(data, qd);
        BuildFirstQuestion(Insert(data, qd), entries[1..], hash, h);
        BuildKeys(Insert(data, qd), entries[1..], hash, h);
    } else {
      BuildKeys(data, entries, hash, h);
    }
  }

  /** Building over two member lists is building over the first, then the second. */
  lemma {:induction false} BuildAppend(data: Index, xs: seq<QuestionEntry>, ys: seq<QuestionEntry>, hash: string -> string)
    ensures var r := Build(data, xs, hash);
      Build(data, xs + ys, hash) == if r.Err? then r else Build(r.value, ys, hash)
    decreases |xs|
  {
    if |xs| == 0 {
      assert xs + ys == ys;
    } else {
      assert (xs + ys)[0] == xs[0];
      assert (xs + ys)[1..] == xs[1..] + ys;
      match QuestionOutcome(xs[0], hash)
      case Crash(_) =>
      case Reject => BuildAppend(data, xs[1..], ys, hash);
      case Accept(qd) => BuildAppend(Insert(data, qd), xs[1..], ys, hash);
    }
  }

  /** A rejected member changes nothing: leaving it out gives the same result. */
  lemma RejectedChangesNothing(data: Index, xs: seq<QuestionEntry>, e: QuestionEntry,
                               ys: seq<QuestionEntry>, hash: string -> string)
    requires QuestionOutcome(e, hash).Reject?
    ensures Build(data, xs + [e] + ys, hash) == Build(data, xs + ys, hash)
  {
    BuildAppend(data, xs + [e], ys, hash);
    BuildAppend(data, xs, [e], hash);
    BuildAppend(data, xs, ys, hash);
    match Build(data, xs, hash)
    case Err(_) =>
    case Ok(d) =>
      assert [e][1..] == [];
  }

  /** All archives' members, in order. */
  function Flatten<T>(archives: seq<seq<T>>): seq<T>
    decreases |archives|
  {
    if |archives| == 0 then [] else archives[0] + Flatten(archives[1..])
  }

  /** Building archive by archive is building over all members at once. */
  lemma {:induction false} BuildAllFlatten(data: Index, archives: seq<seq<QuestionEntry>>, hash: string -> string)
    ensures BuildAll(data, archives, hash) == Build(data, Flatten(archives), hash)
    decreases |archives|
  {
    if |archives| > 0 {
      BuildAppend(data, archives[0], Flatten(archives[1..]), hash);
      match Build(data, archives[0], hash)
      case Err(_) =>
      case Ok(d) => BuildAllFlatten(d, archives[1..], hash);
    }
  }
}
