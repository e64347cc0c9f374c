/** The Python string operations the script relies on, over `seq<char>`:
    `in`, `startswith`, `endswith`, `split(sep)`, `split(sep, 1)`,
    `sep.join(...)`, `replace` and `lower`. */
module Strings {
  import opened Wrappers

  /** `p` occurs in `s` starting at position `i`. */
  predicate OccursAt(s: string, p: string, i: nat) {
    i + |p| <= |s| && s[i..i + |p|] == p
  }

  /** `p in s` for strings: `p` occurs in `s` at some position. */
  predicate Contains(s: string, p: string): (b: bool)
    ensures b <==> exists i: nat :: OccursAt(s, p, i)
    decreases |s|
  {
    OccursShift(s, p);
    StartsWith(s, p) || (|s| > 0 && Contains(s[1..], p))
  }

  /** An occurrence is at the front or further on, one position later than
      in the rest of the string. */
  lemma OccursShift(s: string, p: string)
    ensures (exists i: nat :: OccursAt(s, p, i)) <==>
      OccursAt(s, p, 0) || (|s| > 0 && exists i: nat :: OccursAt(s[1..], p, i))
  {
    if |s| > 0 {
      forall i: nat | OccursAt(s, p, i + 1) ensures OccursAt(s[1..], p, i) {
        assert s[1..][i..i + |p|] == s[i + 1..i + 1 + |p|];
      }
      forall i: nat | OccursAt(s[1..], p, i) ensures OccursAt(s, p, i + 1) {
        assert s[1..][i..i + |p|] == s[i + 1..i + 1 + |p|];
      }
      if exists i: nat :: OccursAt(s, p, i) {
        var i: nat :| OccursAt(s, p, i);
        if i > 0 {
          assert OccursAt(s, p, (i - 1) + 1);
          assert OccursAt(s[1..], p, i - 1);
        }
      }
    }
  }

  /** `s.startswith(p)`. */
  predicate StartsWith(s: string, p: string): (b: bool)
    ensures b <==> |p| <= |s| && forall i :: 0 <= i < |p| ==> s[i] == p[i]
  {
    |p| <= |s| && s[..|p|] == p
  }

  /** `s.endswith(p)`. */
  predicate EndsWith(s: string, p: string): (b: bool)
    ensures b <==> |p| <= |s| && forall i :: 0 <= i < |p| ==> s[|s| - |p| + i] == p[i]
  {
    |p| <= |s| && s[|s| - |p|..] == p
  }

  /** ASCII lower-casing of one character. */
  function LowerChar(c: char): (d: char)
    ensures d == '\n' <==> c == '\n'
    ensures 'A' <= c <= 'Z' ==> 'a' <= d <= 'z'
  {
    if 'A' <= c <= 'Z' then (c as int - 'A' as int + 'a' as int) as char else c
  }

  /** `s.lower()`, as the per-character map `LowerChar`. */
  function Lower(s: string): (r: string)
    ensures |r| == |s|
    ensures forall i :: 0 <= i < |s| ==> r[i] == LowerChar(s[i])
  {
    seq(|s|, i requires 0 <= i < |s| => LowerChar(s[i]))
  }

  lemma LowerKeepsNewlines(s: string)
    ensures '\n' in Lower(s) <==> '\n' in s
  {
    if '\n' in Lower(s) {
      var i :| 0 <= i < |s| && Lower(s)[i] == '\n';
      assert s[i] == '\n';
    }
    if '\n' in s {
      var i :| 0 <= i < |s| && s[i] == '\n';
      assert Lower(s)[i] == '\n';
    }
  }

  /** Position of the first `c` in `s`, or `|s|` when there is none. */
  function IndexOf(s: string, c: char): (k: nat)
    ensures k <= |s|
    ensures k < |s| <==> c in s
    ensures k < |s| ==> s[k] == c
    ensures c !in s[..k]
    decreases |s|
  {
    if |s| == 0 then 0
    else if s[0] == c then 0
    else
      var k := 1 + IndexOf(s[1..], c);
      assert s[..k] == [s[0]] + s[1..][..k - 1];
      k
  }

  /** `s.split(c, 1)` unpacked into two names: `None` when `c` does not occur
      (the unpacking raises), otherwise the text before and after the first `c`. */
  function SplitOnce(s: string, c: char): (r: Option<(string, string)>)
    ensures r.None? <==> c !in s
    ensures r.Some? ==> s == r.value.0 + [c] + r.value.1 && c !in r.value.0
  {
    var k := IndexOf(s, c);
    if k == |s| then None
    else
      assert s == s[..k] + [c] + s[k + 1..];
      Some((s[..k], s[k + 1..]))
  }

  /** `sep.join(parts)`: empty for no parts, otherwise it begins with the
      first part and ends with the last. */
  function Join(parts: seq<string>, sep: string): (r: string)
    ensures |parts| == 0 ==> r == ""
    ensures |parts| > 0 ==> StartsWith(r, parts[0]) && EndsWith(r, parts[|parts| - 1])
    decreases |parts|
  {
    if |parts| == 0 then ""
    else if |parts| == 1 then parts[0]
    else parts[0] + sep + Join(parts[1..], sep)
  }

  /** `s.split(sep)`: the pieces between the separators; no piece holds a separator. */
  function Split(s: string, sep: char): (parts: seq<string>)
    ensures |parts| >= 1
    ensures forall i :: 0 <= i < |parts| ==> sep !in parts[i]
    decreases |s|
  {
    if |s| == 0 then [""]
    else
      var rest := Split(s[1..], sep);
      if s[0] == sep then [""] + rest
      else [[s[0]] + rest[0]] + rest[1..]
  }

  /** Joining the pieces of `s.split(sep)` back with the separator gives `s`. */
  lemma {:induction false} JoinSplit(s: string, sep: char)
    ensures Join(Split(s, sep), [sep]) == s
    decreases |s|
  {
    if |s| > 0 {
      JoinSplit(s[1..], sep);
      var rest := Split(s[1..], sep);
      if s[0] == sep {
        assert Join([""] + rest, [sep]) == [sep] + Join(rest, [sep]);
      } else {
        var parts := [[s[0]] + rest[0]] + rest[1..];
        assert |rest| > 1 ==> Join(rest, [sep]) == rest[0] + [sep] + Join(rest[1..], [sep]);
        assert parts[1..] == rest[1..];
        assert s == [s[0]] + s[1..];
      }
    }
  }

  /** The first piece of `s.split(sep)` is the text before the first separator. */
  lemma {:induction false} SplitHead(s: string, sep: char)
    ensures Split(s, sep)[0] == s[..IndexOf(s, sep)]
    decreases |s|
  {
    if |s| > 0 && s[0] != sep {
      SplitHead(s[1..], sep);
      assert s[..IndexOf(s, sep)] == [s[0]] + s[1..][..IndexOf(s[1..], sep)];
    }
  }

  /** A piece without a separator, followed by the separator, is split off as one piece. */
  lemma {:induction false} SplitPrefix(a: string, sep: char, rest: string)
    requires sep !in a
    ensures Split(a + [sep] + rest, sep) == [a] + Split(rest, sep)
    decreases |a|
  {
    if |a| == 0 {
      assert a + [sep] + rest == [sep] + rest;
      assert ([sep] + rest)[1..] == rest;
    } else {
      SplitPrefix(a[1..], sep, rest);
      assert (a + [sep] + rest)[1..] == a[1..] + [sep] + rest;
      assert [a[0]] + a[1..] == a;
    }
  }

  /** A string without the separator is one piece. */
  lemma {:induction false} SplitNoSeparator(a: string, sep: char)
    requires sep !in a
    ensures Split(a, sep) == [a]
    decreases |a|
  {
    if |a| > 0 {
      SplitNoSeparator(a[1..], sep);
      assert [a[0]] + a[1..] == a;
    }
  }

  /** A character that is in no part and not in the separator is not in the joined string. */
  lemma {:induction false} JoinAvoids(parts: seq<string>, sep: string, c: char)
    requires c !in sep
    requires forall i :: 0 <= i < |parts| ==> c !in parts[i]
    ensures c !in Join(parts, sep)
    decreases |parts|
  {
    if |parts| > 1 {
      JoinAvoids(parts[1..], sep, c);
      assert parts[0] in parts;
    }
  }

  /** `t.replace(p, r)`: scans left to right and replaces every non-overlapping
      occurrence of `p`. The script only ever replaces non-empty patterns.
      A replacement no longer than the pattern never lengthens the text, one
      no shorter never shortens it, and a text holding `p` gives a result
      holding the replacement. */
  function ReplaceAll(t: string, p: string, rep: string): (r: string)
    requires |p| > 0
    ensures |rep| <= |p| ==> |r| <= |t|
    ensures |rep| >= |p| ==> |r| >= |t|
    ensures Contains(t, p) ==> Contains(r, rep)
    decreases |t|
  {
    if |t| == 0 then t
    else if StartsWith(t, p) then
      var u := rep + ReplaceAll(t[|p|..], p, rep);
      assert OccursAt(u, rep, 0);
      u
    else
      var x := ReplaceAll(t[1..], p, rep);
      var u := [t[0]] + x;
      assert u[1..] == x;
      u
  }

  /** `t.replace(p, r)` leaves `t` unchanged exactly when `p` does not occur
      in `t` or `p` is replaced by itself. */
  lemma {:induction false} ReplaceAllIdentity(t: string, p: string, r: string)
    requires |p| > 0
    ensures ReplaceAll(t, p, r) == t <==> (!Contains(t, p) || p == r)
    decreases |t|
  {
    if |t| == 0 {
      assert !StartsWith(t, p);
    } else if StartsWith(t, p) {
      assert t == p + t[|p|..];
      ReplaceAllIdentity(t[|p|..], p, r);
      var x := ReplaceAll(t[|p|..], p, r);
      if r != p && |r| == |p| {
        assert (r + x)[..|p|] == r;
      }
    } else {
      ReplaceAllIdentity(t[1..], p, r);
      var x := ReplaceAll(t[1..], p, r);
      assert [t[0]] + x == t <==> x == t[1..] by {
        assert t == [t[0]] + t[1..];
        if [t[0]] + x == t { assert x == ([t[0]] + x)[1..]; }
      }
    }
  }

  /** A first character that does not start the pattern is copied. */
  lemma ReplaceAllSkipsOne(c: char, t: string, p: string, r: string)
    requires |p| > 0 && c != p[0]
    ensures ReplaceAll([c] + t, p, r) == [c] + ReplaceAll(t, p, r)
  {
    assert ([c] + t)[1..] == t;
    assert !StartsWith([c] + t, p) by { assert ([c] + t)[0] == c; }
  }

  /** A prefix that does not hold the first character of the pattern is
      copied unchanged: no occurrence can start inside it. */
  lemma {:induction false} ReplaceSkipsPrefix(a: string, rest: string, p: string, r: string)
    requires |p| > 0 && p[0] !in a
    ensures ReplaceAll(a + rest, p, r) == a + ReplaceAll(rest, p, r)
    decreases |a|
  {
    if |a| > 0 {
      assert p[0] !in a[1..] by { assert forall c :: c in a[1..] ==> c in a; }
      ReplaceSkipsPrefix(a[1..], rest, p, r);
      ReplaceAllSkipsOne(a[0], a[1..] + rest, p, r);
      assert [a[0]] + (a[1..] + rest) == a + rest;
      assert [a[0]] + (a[1..] + ReplaceAll(rest, p, r)) == a + ReplaceAll(rest, p, r);
    } else {
      assert a + rest == rest;
    }
  }
}
