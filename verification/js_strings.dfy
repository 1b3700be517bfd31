/** The JavaScript string built-ins the synchroniser relies on, on `seq<char>`:
    `endsWith`, `replace` with a string pattern (first occurrence only),
    `replace` with a global one-character regular expression, and
    `split('/').pop()`. `IndexOf` is the first-occurrence search that
    `replace` with a string pattern performs. */
module JsStrings {
  import opened Wrappers

  /** `s.endsWith(suffix)`: the last `|suffix|` characters of `s` are those
      of `suffix`, one by one. */
  function EndsWith(s: string, suffix: string): (b: bool)
    ensures b <==> |suffix| <= |s| && forall i :: 0 <= i < |suffix| ==> s[|s| - |suffix| + i] == suffix[i]
  {
    |suffix| <= |s| && s[|s| - |suffix|..] == suffix
  }

  /** A string ends with `suffix` exactly when it is some prefix followed by
      `suffix`. */
  lemma EndsWithIffConcat(s: string, suffix: string)
    ensures EndsWith(s, suffix) <==> exists prefix :: s == prefix + suffix
  {
    if EndsWith(s, suffix) {
      assert s == s[..|s| - |suffix|] + suffix;
    }
    if exists prefix :: s == prefix + suffix {
      var prefix :| s == prefix + suffix;
      assert s[|s| - |suffix|..] == suffix;
    }
  }

  /** `pat` occurs in `s` starting at index `i`. */
  predicate OccursAt(s: string, pat: string, i: nat) {
    i + |pat| <= |s| && s[i..i + |pat|] == pat
  }

  /** `i` is the smallest index at which `pat` occurs in `s`. */
  predicate IsFirstOccurrence(s: string, pat: string, i: nat) {
    OccursAt(s, pat, i) && forall j: nat :: j < i ==> !OccursAt(s, pat, j)
  }

  ghost predicate Absent(s: string, pat: string) {
    forall j: nat :: !OccursAt(s, pat, j)
  }

  /** Scans for `pat` from index `from` on, knowing it does not occur earlier. */
  function IndexOfFrom(s: string, pat: string, from: nat): (r: Option<nat>)
    requires forall j: nat :: j < from ==> !OccursAt(s, pat, j)
    ensures r.Some? ==> IsFirstOccurrence(s, pat, r.value)
    ensures r.None? ==> Absent(s, pat)
    decreases |s| - from
  {
    if from + |pat| > |s| then None
    else if s[from..from + |pat|] == pat then Some(from)
    else IndexOfFrom(s, pat, from + 1)
  }

  /** `s.indexOf(pat)`, with `None` standing for -1. */
  function IndexOf(s: string, pat: string): (r: Option<nat>)
    ensures r.Some? ==> IsFirstOccurrence(s, pat, r.value)
    ensures r.None? ==> Absent(s, pat)
  {
    IndexOfFrom(s, pat, 0)
  }

  lemma FirstOccurrenceUnique(s: string, pat: string, i: nat, k: nat)
    requires IsFirstOccurrence(s, pat, i) && IsFirstOccurrence(s, pat, k)
    ensures i == k
  {
  }

  /** `s.replace(pat, '')` with a string pattern: only the FIRST occurrence
      of `pat` is removed, wherever it is; without one, `s` is returned. */
  function RemoveFirst(s: string, pat: string): (r: string)
    ensures Absent(s, pat) ==> r == s
    ensures forall i: nat :: IsFirstOccurrence(s, pat, i) ==> r == s[..i] + s[i + |pat|..]
    ensures |r| == |s| || |r| + |pat| == |s|
  {
    match IndexOf(s, pat)
    case None => s
    case Some(i) =>
      assert forall k: nat :: IsFirstOccurrence(s, pat, k) ==> k == i by {
        forall k: nat | IsFirstOccurrence(s, pat, k) {
          FirstOccurrenceUnique(s, pat, i, k);
        }
      }
      s[..i] + s[i + |pat|..]
  }

  /** Removing a pattern adds no character. */
  lemma RemoveFirstKeepsOnlyCharsOf(s: string, pat: string)
    ensures forall c :: c in RemoveFirst(s, pat) ==> c in s
  {
    match IndexOf(s, pat)
    case None =>
    case Some(i) =>
      var front, back := s[..i], s[i + |pat|..];
      assert RemoveFirst(s, pat) == front + back;
      forall c | c in front + back ensures c in s {
        if c in front {
          var k :| 0 <= k < |front| && front[k] == c;
          assert s[k] == c;
        } else {
          var k :| 0 <= k < |back| && back[k] == c;
          assert s[k + i + |pat|] == c;
        }
      }
  }

  /** `s.replace(/c/g, d)`: every occurrence of the character `c` becomes `d`. */
  function ReplaceAllChar(s: string, c: char, d: char): (r: string)
    ensures |r| == |s|
    ensures forall i :: 0 <= i < |s| ==> r[i] == (if s[i] == c then d else s[i])
    ensures c != d ==> c !in r
    ensures forall x :: x in r && x != d ==> x in s
  {
    if |s| == 0 then ""
    else [if s[0] == c then d else s[0]] + ReplaceAllChar(s[1..], c, d)
  }

  lemma {:induction false} ReplaceAllCharConcat(a: string, b: string, c: char, d: char)
    ensures ReplaceAllChar(a + b, c, d) == ReplaceAllChar(a, c, d) + ReplaceAllChar(b, c, d)
  {
    if |a| > 0 {
      assert (a + b)[1..] == a[1..] + b;
      ReplaceAllCharConcat(a[1..], b, c, d);
    } else {
      assert a + b == b;
    }
  }

  lemma ReplaceAllCharAbsent(s: string, c: char, d: char)
    requires c !in s
    ensures ReplaceAllChar(s, c, d) == s
  {
  }

  /** `s.split('/').pop()`: the text after the last '/', or all of `s` when it
      has none. */
  function LastSegment(s: string): (r: string)
    ensures '/' !in r
    ensures |r| <= |s| && r == s[|s| - |r|..]
    ensures |r| < |s| ==> s[|s| - |r| - 1] == '/'
  {
    if |s| == 0 then ""
    else if s[|s| - 1] == '/' then ""
    else LastSegment(s[..|s| - 1]) + [s[|s| - 1]]
  }

  /** The segment after the last '/' of `dir + "/" + file` is `file`. */
  lemma {:induction false} LastSegmentOfJoin(dir: string, file: string)
    requires '/' !in file
    ensures LastSegment(dir + "/" + file) == file
  {
    var s := dir + "/" + file;
    if |file| == 0 {
      assert s[|s| - 1] == '/';
    } else {
      var init, last := file[..|file| - 1], file[|file| - 1];
      assert s == (dir + "/" + init) + [last];
      assert s[..|s| - 1] == dir + "/" + init;
      assert s[|s| - 1] == last;
      assert last != '/' by {
        assert last == file[|file| - 1];
      }
      LastSegmentOfJoin(dir, init);
      assert LastSegment(s) == LastSegment(dir + "/" + init) + [last];
      assert init + [last] == file;
    }
  }
}
