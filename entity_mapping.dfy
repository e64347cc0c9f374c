/** Reading the entity mapping of a question file (`find_entities_and_url`):
    the lines are walked from the end, each line holding a colon adds the
    pair (text before the first colon, text after it) to the mapping, and the
    walk stops silently at the first line without a colon. */
module EntityMapping {
  import opened Wrappers
  import opened Strings
  import opened Dicts

  /** Number of lines at the end of `lines` that hold a colon, up to the first
      one from the end that does not. */
  function TrailingCount(lines: seq<string>): (n: nat)
    ensures n <= |lines|
    ensures forall j :: |lines| - n <= j < |lines| ==> ':' in lines[j]
    ensures n < |lines| ==> ':' !in lines[|lines| - n - 1]
    decreases |lines|
  {
    if |lines| == 0 || ':' !in lines[|lines| - 1] then 0
    else 1 + TrailingCount(lines[..|lines| - 1])
  }

  /** The (key, value) pairs of the trailing block of colon lines, top to bottom. */
  function BlockPairs(lines: seq<string>): (ps: seq<(string, string)>)
    ensures |ps| == TrailingCount(lines)
    ensures forall i :: 0 <= i < |ps| ==>
      SplitOnce(lines[|lines| - |ps| + i], ':') == Some(ps[i])
    decreases |lines|
  {
    if |lines| == 0 then []
    else match SplitOnce(lines[|lines| - 1], ':')
      case None => []
      case Some(kv) =>
        var init := lines[..|lines| - 1];
        BlockPairs(init) + [kv]
  }

  /** The value of the first pair with key `k`, that is the one nearest the top. */
  function TopMost(ps: seq<(string, string)>, k: string): Option<string>
    decreases |ps|
  {
    if |ps| == 0 then None
    else if ps[0].0 == k then Some(ps[0].1)
    else TopMost(ps[1..], k)
  }

  /** The walk from the end: starting from mapping `acc`, every line of the
      trailing colon block, bottom to top, is assigned into the mapping. */
  function Scan(acc: Dict<string>, lines: seq<string>): Dict<string>
    decreases |lines|
  {
    if |lines| == 0 then acc
    else match SplitOnce(lines[|lines| - 1], ':')
      case None => acc
      case Some(kv) => Scan(Put(acc, kv.0, kv.1), lines[..|lines| - 1])
  }

  /** The entity mapping of the lines of a question file. */
  function Mapping(lines: seq<string>): Dict<string> {
    Scan([], lines)
  }

  /** `find_entities_and_url`: the hashed first line and the entity mapping,
      or the IndexError that `lines[0]` raises on an empty file. */
  method FindEntitiesAndUrl(lines: seq<string>, hash: string -> string)
    returns (r: Result<(Dict<string>, string)>)
    ensures |lines| == 0 ==> r == Err(IndexError)
    ensures |lines| > 0 ==> r == Ok((Mapping(lines), hash(lines[0])))
  {
    if |lines| == 0 {
      return Err(IndexError);
    }
    var hashedUrl := hash(lines[0]);
    var mapping: Dict<string> := [];
    var i := |lines|;
    assert lines[..i] == lines;
    while i > 0
      invariant 0 <= i <= |lines|
      invariant Scan(mapping, lines[..i]) == Mapping(lines)
    {
      var kv := SplitOnce(lines[i - 1], ':');
      assert lines[..i] == lines[..i - 1] + [lines[i - 1]];
      ScanSnoc(mapping, lines[..i - 1], lines[i - 1]);
      if kv.None? {
        break;
      }
      mapping := Put(mapping, kv.value.0, kv.value.1);
      i := i - 1;
    }
    return Ok((mapping, hashedUrl));
  }

  /** One step of the walk: the last line is handled first. */
  lemma ScanSnoc(acc: Dict<string>, init: seq<string>, last: string)
    ensures Scan(acc, init + [last]) ==
      match SplitOnce(last, ':')
      case None => acc
      case Some(kv) => Scan(Put(acc, kv.0, kv.1), init)
  {
    assert (init + [last])[..|init|] == init;
  }

  /** Looking past the end of a list of pairs falls back to the next block. */
  lemma {:induction false} TopMostAppend(ps: seq<(string, string)>, kv: (string, string), k: string)
    ensures TopMost(ps + [kv], k) ==
      if TopMost(ps, k).Some? then TopMost(ps, k)
      else if kv.0 == k then Some(kv.1) else None
    decreases |ps|
  {
    if |ps| == 0 {
      assert ps + [kv] == [kv];
    } else {
      TopMostAppend(ps[1..], kv, k);
      assert (ps + [kv])[1..] == ps[1..] + [kv];
    }
  }

  /** The walk finds, for every key, the value of the topmost block line with
      that key, and keeps what `acc` had for keys the block does not mention. */
  lemma {:induction false} ScanGet(acc: Dict<string>, lines: seq<string>, k: string)
    ensures Get(Scan(acc, lines), k) ==
      if TopMost(BlockPairs(lines), k).Some? then TopMost(BlockPairs(lines), k) else Get(acc, k)
    decreases |lines|
  {
    if |lines| > 0 {
      match SplitOnce(lines[|lines| - 1], ':')
      case None =>
      case Some(kv) =>
        var init := lines[..|lines| - 1];
        ScanGet(Put(acc, kv.0, kv.1), init, k);
        TopMostAppend(BlockPairs(init), kv, k);
    }
  }

  /** The walk keeps keys unique. */
  lemma {:induction false} ScanUnique(acc: Dict<string>, lines: seq<string>)
    requires UniqueKeys(acc)
    ensures UniqueKeys(Scan(acc, lines))
    decreases |lines|
  {
    if |lines| > 0 {
      match SplitOnce(lines[|lines| - 1], ':')
      case None =>
      case Some(kv) => ScanUnique(Put(acc, kv.0, kv.1), lines[..|lines| - 1]);
    }
  }

  /** The keys of the mapping are exactly the before-colon parts of the
      trailing block, each with the value of the topmost line holding it,
      and no key appears twice. */
  lemma MappingSpec(lines: seq<string>, k: string)
    ensures Get(Mapping(lines), k) == TopMost(BlockPairs(lines), k)
    ensures UniqueKeys(Mapping(lines))
  {
    ScanGet([], lines, k);
    ScanUnique([], lines);
  }

  /** The walk never adds a pair it has not seen, and adds every pair of the block. */
  lemma {:induction false} ScanSize(acc: Dict<string>, lines: seq<string>)
    ensures |Scan(acc, lines)| >= |acc|
    ensures |Scan(acc, lines)| == 0 <==> |acc| == 0 && TrailingCount(lines) == 0
    decreases |lines|
  {
    if |lines| > 0 {
      match SplitOnce(lines[|lines| - 1], ':')
      case None =>
      case Some(kv) => ScanSize(Put(acc, kv.0, kv.1), lines[..|lines| - 1]);
    }
  }

  /** The mapping is empty exactly when the last line (if any) holds no colon. */
  lemma MappingEmpty(lines: seq<string>)
    ensures Mapping(lines) == [] <==> |lines| == 0 || ':' !in lines[|lines| - 1]
  {
    ScanSize([], lines);
  }

  /** Lines from the first colon-free line from the end upwards do not
      matter: the walk stops there. */
  lemma {:induction false} ScanStops(acc: Dict<string>, above: seq<string>, stop: string, below: seq<string>)
    requires ':' !in stop
    ensures Scan(acc, above + [stop] + below) == Scan(acc, below)
    decreases |below|
  {
    if |below| == 0 {
      assert above + [stop] + below == above + [stop];
      ScanSnoc(acc, above, stop);
    } else {
      var init := below[..|below| - 1];
      var last := below[|below| - 1];
      assert above + [stop] + below == (above + [stop] + init) + [last];
      assert below == init + [last];
      ScanSnoc(acc, above + [stop] + init, last);
      ScanSnoc(acc, init, last);
      match SplitOnce(last, ':')
      case None =>
      case Some(kv) => ScanStops(Put(acc, kv.0, kv.1), above, stop, init);
    }
  }
}
