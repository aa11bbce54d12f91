/** The two Python string operations the application uses on file names and on
    the model template: `str.find`, `str.replace(pat, repl, 1)` and
    `str.replace(pat, repl)`. */
module PyStrings {
  import opened Options

  /** `pat` occurs in `s` starting at position `i`. */
  predicate OccursAt(s: string, pat: string, i: nat)
  {
    i + |pat| <= |s| && s[i..i + |pat|] == pat
  }

  /** `pat` occurs at `i` and nowhere before it. */
  predicate IsFirstAt(s: string, pat: string, i: nat)
  {
    OccursAt(s, pat, i) && forall j: nat :: j < i ==> !OccursAt(s, pat, j)
  }

  /** `pat` occurs nowhere in `s`. */
  predicate Absent(s: string, pat: string)
  {
    forall i: nat :: i <= |s| ==> !OccursAt(s, pat, i)
  }

  /** Shifting the text by one character shifts every occurrence by one. */
  lemma OccursAtTail(s: string, pat: string, i: nat)
    requires |s| > 0
    ensures OccursAt(s[1..], pat, i) <==> OccursAt(s, pat, i + 1)
  {
    if i + 1 + |pat| <= |s| {
      assert s[1..][i..i + |pat|] == s[i + 1..i + 1 + |pat|];
    }
  }

  /** `s.find(pat)`: the first position where `pat` occurs, `None` standing for
      Python's -1. An empty `pat` is found at 0. */
  function Find(s: string, pat: string): (r: Option<nat>)
    ensures r.None? <==> Absent(s, pat)
    ensures r.Some? ==> IsFirstAt(s, pat, r.value)
  {
    if OccursAt(s, pat, 0) then Some(0)
    else if |s| == 0 then
      assert forall i: nat :: i > 0 ==> !OccursAt(s, pat, i);
      None
    else
      var r := Find(s[1..], pat);
      assert forall i: nat :: OccursAt(s, pat, i + 1) <==> OccursAt(s[1..], pat, i) by {
        forall i: nat
          ensures OccursAt(s, pat, i + 1) <==> OccursAt(s[1..], pat, i)
        {
          OccursAtTail(s, pat, i);
        }
      }
      assert forall i: nat :: i > 0 ==> OccursAt(s, pat, i) == OccursAt(s[1..], pat, i - 1);
      match r
      case None => None
      case Some(i) => Some(i + 1)
  }

  /** Only one position can be the first occurrence. */
  lemma FirstIsUnique(s: string, pat: string, i: nat, j: nat)
    requires IsFirstAt(s, pat, i) && IsFirstAt(s, pat, j)
    ensures i == j
  {
  }

  /** `s.replace(pat, repl, 1)`: the first occurrence of `pat` replaced by
      `repl`; without an occurrence `s` comes back unchanged. */
  function ReplaceFirst(s: string, pat: string, repl: string): (r: string)
    ensures Absent(s, pat) ==> r == s
    ensures !Absent(s, pat) ==> |r| == |s| - |pat| + |repl|
  {
    match Find(s, pat)
    case None => s
    case Some(i) => s[..i] + repl + s[i + |pat|..]
  }

  /** With the first occurrence of `pat` at `i`, `ReplaceFirst` keeps what is
      before it, puts `repl` in its place and keeps what follows it. */
  lemma ReplaceFirstAt(s: string, pat: string, repl: string, i: nat)
    requires IsFirstAt(s, pat, i)
    ensures ReplaceFirst(s, pat, repl) == s[..i] + repl + s[i + |pat|..]
  {
    FirstIsUnique(s, pat, i, Find(s, pat).value);
  }

  /** Replacing the first occurrence of `pat` by `pat` itself changes nothing. */
  lemma ReplaceFirstWithItself(s: string, pat: string)
    ensures ReplaceFirst(s, pat, pat) == s
  {
    if !Absent(s, pat) {
      var i := Find(s, pat).value;
      assert s == s[..i] + s[i..i + |pat|] + s[i + |pat|..];
    }
  }

  /** Cutting `pre + pat + rest` around `pat` gives back `pre` and `rest`. */
  lemma CutAround(pre: string, pat: string, rest: string)
    ensures (pre + pat + rest)[..|pre|] == pre
    ensures (pre + pat + rest)[|pre| + |pat|..] == rest
  {
  }

  /** `repl` before every character of `s` and once more at the end: what
      `s.replace("", repl)` gives. */
  function Separate(s: string, repl: string): (r: string)
    ensures |r| == |s| * (|repl| + 1) + |repl|
    ensures r[..|repl|] == repl && r[|r| - |repl|..] == repl
  {
    if |s| == 0 then repl
    else
      var rest := Separate(s[1..], repl);
      assert (|s| - 1) * (|repl| + 1) + |repl| + 1 + |repl| == |s| * (|repl| + 1) + |repl|;
      assert (repl + [s[0]] + rest)[|repl| + 1 + |rest| - |repl|..] == rest[|rest| - |repl|..];
      repl + [s[0]] + rest
  }

  /** `s.replace(pat, repl)`: every occurrence of `pat`, scanned left to right
      without overlap, replaced by `repl`. */
  function ReplaceAll(s: string, pat: string, repl: string): (r: string)
    decreases |s|
    ensures |pat| > 0 && Absent(s, pat) ==> r == s
  {
    if |pat| == 0 then Separate(s, repl)
    else match Find(s, pat)
      case None => s
      case Some(i) =>
        s[..i] + repl + ReplaceAll(s[i + |pat|..], pat, repl)
  }

  /** `ReplaceAll` takes the first occurrence, then carries on after it. */
  lemma ReplaceAllAtFirst(pre: string, pat: string, rest: string, repl: string)
    requires |pat| > 0
    requires IsFirstAt(pre + pat + rest, pat, |pre|)
    ensures ReplaceAll(pre + pat + rest, pat, repl) == pre + repl + ReplaceAll(rest, pat, repl)
  {
    var s := pre + pat + rest;
    FirstIsUnique(s, pat, |pre|, Find(s, pat).value);
    assert s[..|pre|] == pre;
    assert s[|pre| + |pat|..] == rest;
  }

  /** A text without the first character of `pat` cannot contain `pat`. */
  lemma AbsentWithoutFirstChar(s: string, pat: string)
    requires |pat| > 0 && pat[0] !in s
    ensures Absent(s, pat)
  {
    forall i: nat | i <= |s|
      ensures !OccursAt(s, pat, i)
    {
      if i + |pat| <= |s| {
        assert s[i..i + |pat|][0] == s[i] && s[i] in s;
      }
    }
  }

  /** No proper suffix of `pat` is also a prefix of it, so two occurrences
      of `pat` can never overlap. */
  predicate NoBorder(pat: string)
  {
    forall k :: 0 < k < |pat| ==> pat[k..] != pat[..|pat| - k]
  }

  /** When `pre` does not contain a border-free `pat`, the first occurrence
      of `pat` in `pre + pat + rest` is the one right after `pre`. */
  lemma {:induction false} FirstAfterAbsentPrefix(pre: string, pat: string, rest: string)
    requires NoBorder(pat)
    requires Absent(pre, pat)
    ensures IsFirstAt(pre + pat + rest, pat, |pre|)
  {
    var s := pre + pat + rest;
    assert s[|pre|..|pre| + |pat|] == pat;
    forall j: nat | j < |pre|
      ensures !OccursAt(s, pat, j)
    {
      if j + |pat| <= |pre| {
        assert s[j..j + |pat|] == pre[j..j + |pat|];
        assert !OccursAt(pre, pat, j);
      } else {
        var k := |pre| - j;
        assert s[j..j + |pat|][k..] == pat[..|pat| - k];
        assert pat[k..] != pat[..|pat| - k];
      }
    }
  }
}
