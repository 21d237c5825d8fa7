/** `str_replace` of components/ip.c: replace every occurrence of a
    substring, counting the matches first, allocating exactly the needed
    length and then copying pieces of the original around each match.
    Positions are offsets into the original string, as the C code's
    pointers `ins`, `tmp` and `orig` are. */
module StrReplace {
  import opened CString

  /** The matches `str_replace` counts from offset `from` on: scanning left
      to right with `strstr` and resuming right after the end of each match,
      so matches never overlap. An empty pattern has no counted matches. */
  function CountFrom(s: string, rep: string, from: nat): nat
    requires from <= |s|
    decreases |s| - from
  {
    if |rep| == 0 then 0
    else match FindFrom(s, rep, from)
      case None => 0
      case Some(i) => 1 + CountFrom(s, rep, i + |rep|)
  }

  /** The text `str_replace` produces from offset `from` of `s` on. */
  function ReplaceFrom(s: string, rep: string, with: string, from: nat): string
    requires from <= |s|
    decreases |s| - from
  {
    if |rep| == 0 then s[from..]
    else match FindFrom(s, rep, from)
      case None => s[from..]
      case Some(i) => s[from..i] + with + ReplaceFrom(s, rep, with, i + |rep|)
  }

  /** The number of replacements `str_replace(orig, rep, with)` makes. */
  function CountMatches(orig: string, rep: string): nat
  {
    CountFrom(orig, rep, 0)
  }

  /** The string `str_replace(orig, rep, with)` returns: each counted match
      of `rep` becomes `with`, the text around the matches is kept, and the
      scan resumes in `orig` after the match, never in the inserted text. */
  function ReplaceAll(orig: string, rep: string, with: string): string
  {
    ReplaceFrom(orig, rep, with, 0)
  }

  /** The allocation at ip.c:86 is exactly the length of the result. */
  lemma {:induction false} ReplaceFromLength(s: string, rep: string, with: string, from: nat)
    requires from <= |s|
    ensures |ReplaceFrom(s, rep, with, from)| ==
      |s| - from + (|with| - |rep|) * CountFrom(s, rep, from)
    decreases |s| - from
  {
    if |rep| > 0 && FindFrom(s, rep, from).Some? {
      var next := FindFrom(s, rep, from).value + |rep|;
      ReplaceFromLength(s, rep, with, next);
      MulSucc(|with| - |rep|, CountFrom(s, rep, next));
    }
  }

  lemma MulSucc(d: int, c: int)
    ensures d * (1 + c) == d + d * c
  {
  }

  /** Without an occurrence of `rep`, the text comes back unchanged and no
      match is counted. */
  lemma ReplaceAllNoMatch(orig: string, rep: string, with: string)
    requires !Occurs(orig, rep)
    ensures ReplaceAll(orig, rep, with) == orig
    ensures CountMatches(orig, rep) == 0
  {
    FirstMatchLeftmost(orig, rep);
  }

  /** Replacing `rep` by itself gives back the original text. */
  lemma {:induction false} ReplaceFromSelf(s: string, rep: string, from: nat)
    requires from <= |s|
    ensures ReplaceFrom(s, rep, rep, from) == s[from..]
    decreases |s| - from
  {
    if |rep| > 0 && FindFrom(s, rep, from).Some? {
      var i := FindFrom(s, rep, from).value;
      var next := i + |rep|;
      FindFromMatches(s, rep, from);
      MatchAtSlice(s, rep, i);
      ReplaceFromStep(s, rep, rep, from, i, next);
      ReplaceFromSelf(s, rep, next);
      SliceSplit(s, from, i, next);
    }
  }

  lemma SliceSplit(s: string, a: nat, b: nat, c: nat)
    requires a <= b <= c <= |s|
    ensures s[a..] == s[a..b] + s[b..c] + s[c..]
  {
  }

  /** `segs` joined with `sep` between consecutive segments. */
  function Join(segs: seq<string>, sep: string): string
  {
    if |segs| == 0 then []
    else if |segs| == 1 then segs[0]
    else segs[0] + sep + Join(segs[1..], sep)
  }

  /** `segs` is how a left-to-right, non-overlapping scan cuts `s[from..]` at
      the occurrences of `rep`: each segment but the last is followed by an
      occurrence of `rep` and no occurrence starts earlier, and no
      occurrence starts in the last segment. Stated with MatchAt alone,
      independently of `strstr`. */
  ghost predicate IsLeftmostSplit(s: string, rep: string, segs: seq<string>, from: nat)
    requires from <= |s|
    decreases |segs|
  {
    |segs| > 0 &&
    if |segs| == 1 then
      segs[0] == s[from..] && forall j: nat :: from <= j ==> !MatchAt(s, rep, j)
    else
      var n := from + |segs[0]|;
      n + |rep| <= |s| && s[from..n] == segs[0] && MatchAt(s, rep, n) &&
      (forall j: nat :: from <= j < n ==> !MatchAt(s, rep, j)) &&
      IsLeftmostSplit(s, rep, segs[1..], n + |rep|)
  }

  /** The left-to-right split of `s[from..]` at the occurrences of a
      non-empty `rep`. */
  function Split(s: string, rep: string, from: nat): (segs: seq<string>)
    requires |rep| > 0 && from <= |s|
    ensures IsLeftmostSplit(s, rep, segs, from)
    decreases |s| - from
  {
    FindFromLeftmost(s, rep, from);
    match FindFrom(s, rep, from)
    case None => [s[from..]]
    case Some(i) =>
      var rest := Split(s, rep, i + |rep|);
      assert ([s[from..i]] + rest)[1..] == rest;
      [s[from..i]] + rest
  }

  /** A split of more than one segment: its first segment, the occurrence
      of `rep` after it, and the split of the rest. */
  lemma SplitParts(s: string, rep: string, segs: seq<string>, from: nat, n: nat, next: nat)
    requires from <= |s| && |segs| > 1 && IsLeftmostSplit(s, rep, segs, from)
    requires n == from + |segs[0]| && next == n + |rep|
    ensures next <= |s| && s[from..n] == segs[0] && MatchAt(s, rep, n)
    ensures IsLeftmostSplit(s, rep, segs[1..], next)
  {
  }

  /** The first segment of a split of more than one segment ends where
      FindFrom finds the first occurrence. */
  lemma SplitHead(s: string, rep: string, segs: seq<string>, from: nat, n: nat, next: nat)
    requires from <= |s| && |segs| > 1 && IsLeftmostSplit(s, rep, segs, from)
    requires n == from + |segs[0]| && next == n + |rep|
    ensures next <= |s| && s[from..n] == segs[0] && FindFrom(s, rep, from) == Some(n)
    ensures IsLeftmostSplit(s, rep, segs[1..], next)
  {
    FindFromIs(s, rep, from, n);
  }

  /** Any leftmost split determines the result: the segments are copied
      verbatim with `with` between them. */
  lemma {:induction false} ReplaceBySplit(s: string, rep: string, with: string, segs: seq<string>, from: nat)
    requires |rep| > 0 && from <= |s|
    requires IsLeftmostSplit(s, rep, segs, from)
    ensures ReplaceFrom(s, rep, with, from) == Join(segs, with)
    decreases |segs|
  {
    if |segs| == 1 {
      FindFromNone(s, rep, from);
    } else {
      var n := from + |segs[0]|;
      var next := n + |rep|;
      SplitHead(s, rep, segs, from, n, next);
      ReplaceFromStep(s, rep, with, from, n, next);
      ReplaceBySplit(s, rep, with, segs[1..], next);
    }
  }

  /** The number of replacements is one less than the number of segments. */
  lemma {:induction false} CountBySplit(s: string, rep: string, segs: seq<string>, from: nat)
    requires |rep| > 0 && from <= |s|
    requires IsLeftmostSplit(s, rep, segs, from)
    ensures CountFrom(s, rep, from) == |segs| - 1
    decreases |segs|
  {
    if |segs| == 1 {
      FindFromNone(s, rep, from);
    } else {
      var n := from + |segs[0]|;
      var next := n + |rep|;
      SplitHead(s, rep, segs, from, n, next);
      CountFromStep(s, rep, from, n, next);
      CountBySplit(s, rep, segs[1..], next);
    }
  }

  /** Joining the segments with `rep` gives the scanned text back. */
  lemma {:induction false} JoinSplit(s: string, rep: string, segs: seq<string>, from: nat)
    requires from <= |s|
    requires IsLeftmostSplit(s, rep, segs, from)
    ensures Join(segs, rep) == s[from..]
    decreases |segs|
  {
    if |segs| > 1 {
      var n := from + |segs[0]|;
      var next := n + |rep|;
      SplitParts(s, rep, segs, from, n, next);
      JoinSplit(s, rep, segs[1..], next);
      JoinStep(s, rep, segs, from, n, next);
    }
  }

  /** One step of JoinSplit: the first segment, `rep`, and the join of the
      other segments make up the text. */
  lemma JoinStep(s: string, rep: string, segs: seq<string>, from: nat, n: nat, next: nat)
    requires |segs| > 1 && from <= n && next == n + |rep| <= |s|
    requires s[from..n] == segs[0] && MatchAt(s, rep, n)
    requires Join(segs[1..], rep) == s[next..]
    ensures Join(segs, rep) == s[from..]
  {
    MatchAtSlice(s, rep, n);
    SliceSplit(s, from, n, next);
  }

  /** No segment of a leftmost split contains `rep`: an occurrence inside a
      segment would have been found first. */
  lemma {:induction false} SplitSegmentsFree(s: string, rep: string, segs: seq<string>, from: nat, k: nat)
    requires |rep| > 0 && from <= |s|
    requires IsLeftmostSplit(s, rep, segs, from)
    requires k < |segs|
    ensures !Occurs(segs[k], rep)
    decreases |segs|
  {
    if k == 0 {
      if Occurs(segs[0], rep) {
        var j: nat :| j <= |segs[0]| && MatchAt(segs[0], rep, j);
        var n := from + |segs[0]|;
        if |segs| == 1 {
          assert segs[0] == s[from..|s|];
          MatchInSlice(s, rep, from, |s|, j);
        } else {
          MatchInSlice(s, rep, from, n, j);
        }
      }
    } else {
      SplitSegmentsFree(s, rep, segs[1..], from + |segs[0]| + |rep|, k - 1);
    }
  }

  /** The scan never looks inside inserted text: here the inserted "b"
      completes a new occurrence of "ab" that is left in the result. */
  lemma InsertedTextNotRescanned()
    ensures ReplaceAll("aab", "ab", "b") == "ab"
    ensures Occurs(ReplaceAll("aab", "ab", "b"), "ab")
  {
    assert !MatchAt("aab", "ab", 0) by { assert "aab"[1] != "ab"[1]; }
    assert MatchAt("aab", "ab", 1) by { assert "aab"[1..3] == "ab"; }
    FindFromIs("aab", "ab", 0, 1);
    assert "aab"[0..1] == "a";
    assert MatchAt("ab", "ab", 0);
  }

  /** `strncpy`/`strcpy` of `src` into `dst` at offset `at`. */
  method Blit(dst: array<char>, at: nat, src: string)
    requires at + |src| <= dst.Length
    modifies dst
    ensures dst[..at + |src|] == old(dst[..at]) + src
    ensures dst[at + |src|..] == old(dst[at + |src|..])
  {
    forall k | 0 <= k < |src| {
      dst[at + k] := src[k];
    }
  }

  /** Two `strncpy`s in a row: `a` at offset `at`, then `b` right after it. */
  method Blit2(dst: array<char>, at: nat, a: string, b: string)
    requires at + |a| + |b| <= dst.Length
    modifies dst
    ensures dst[..at + |a| + |b|] == old(dst[..at]) + a + b
  {
    Blit(dst, at, a);
    Blit(dst, at + |a|, b);
  }

  /** Once no match is left to count, the rest of the text is copied as is
      (the final `strcpy` at ip.c:103). */
  lemma NoMoreMatches(s: string, rep: string, with: string, from: nat)
    requires from <= |s| && |rep| > 0 && CountFrom(s, rep, from) == 0
    ensures ReplaceFrom(s, rep, with, from) == s[from..]
  {
  }

  /** One step of the scan: the text before the match, then `with`, then
      the rest resumed after the match. */
  lemma ReplaceFromStep(s: string, rep: string, with: string, from: nat, i: nat, next: nat)
    requires from <= |s| && |rep| > 0 && FindFrom(s, rep, from) == Some(i) && next == i + |rep|
    ensures from <= i <= next <= |s|
    ensures ReplaceFrom(s, rep, with, from) == s[from..i] + with + ReplaceFrom(s, rep, with, next)
  {
  }

  /** One step of the count: the match at `i`, then the matches after it. */
  lemma CountFromStep(s: string, rep: string, from: nat, i: nat, next: nat)
    requires from <= |s| && |rep| > 0 && FindFrom(s, rep, from) == Some(i) && next == i + |rep|
    ensures from <= i <= next <= |s|
    ensures CountFrom(s, rep, from) == 1 + CountFrom(s, rep, next)
  {
  }

  lemma Reassociate(done: string, front: string, w: string, tail: string, total: string)
    requires done + (front + w + tail) == total
    ensures (done + front + w) + tail == total
  {
  }

  /** The counting loop of ip.c:82-84: `strstr` from `ins`, then resume
      right after the match. */
  method CountReplacements(o: string, rp: string) returns (count: nat)
    requires |rp| > 0
    ensures count == CountMatches(o, rp)
  {
    var ins: nat := 0;
    count := 0;
    var tmp := FindFrom(o, rp, ins);
    while tmp.Some?
      invariant ins <= |o|
      invariant tmp == FindFrom(o, rp, ins)
      invariant CountMatches(o, rp) == count + CountFrom(o, rp, ins)
      decreases |o| - ins
    {
      CountFromStep(o, rp, ins, tmp.value, tmp.value + |rp|);
      ins := tmp.value + |rp|;
      count := count + 1;
      tmp := FindFrom(o, rp, ins);
    }
  }

  /** The allocation and the copying loop of ip.c:86-103: the text before
      each match, then `with`, then the match is skipped; the text after
      the last match is copied last. */
  method CopyReplacing(o: string, rp: string, w: string, count: nat) returns (result: array<char>)
    requires |rp| > 0 && count == CountMatches(o, rp)
    ensures result[..] == ReplaceAll(o, rp, w)
  {
    ghost var target := ReplaceAll(o, rp, w);
    ReplaceFromLength(o, rp, w, 0);
    result := new char[|o| + (|w| - |rp|) * count];
    ghost var built: string := [];
    var t: nat := 0;
    var op: nat := 0;
    var c := count;
    while c > 0
      invariant op <= |o| && t == |built|
      invariant c == CountFrom(o, rp, op)
      invariant built + ReplaceFrom(o, rp, w, op) == target
      invariant |target| == result.Length
      invariant result[..t] == built
      decreases c
    {
      var m := FindFrom(o, rp, op);
      var i := m.value;
      var next := i + |rp|;
      var front := o[op..i];
      ghost var rest := ReplaceFrom(o, rp, w, next);
      ReplaceFromStep(o, rp, w, op, i, next);
      CountFromStep(o, rp, op, i, next);
      Reassociate(built, front, w, rest, target);
      Blit2(result, t, front, w);
      built := built + front + w;
      t := t + |front| + |w|;
      op := next;
      c := c - 1;
    }
    NoMoreMatches(o, rp, w, op);
    Blit(result, t, o[op..]);
    assert result[..] == result[..t + |o[op..]|];
  }

  /** `str_replace(orig, rep, with)`. None stands for a NULL pointer: a
      NULL `orig` or `rep` returns `orig`, an empty `rep` returns `orig`,
      and a NULL `with` is taken as "". */
  method StrReplace(orig: Option<string>, rep: Option<string>, with: Option<string>)
    returns (r: Option<string>)
    ensures orig.None? || rep.None? ==> r == orig
    ensures rep.Some? && |rep.value| == 0 ==> r == orig
    ensures orig.Some? && rep.Some? ==>
      r == Some(ReplaceAll(orig.value, rep.value, if with.Some? then with.value else ""))
  {
    if orig.None? || rep.None? {
      return orig;
    }
    var o, rp := orig.value, rep.value;
    if |rp| == 0 {
      return orig;
    }
    var w := if with.Some? then with.value else "";
    var count := CountReplacements(o, rp);
    var result := CopyReplacing(o, rp, w, count);
    r := Some(result[..]);
  }
}
