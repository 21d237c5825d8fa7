/** C string primitives that components/ip.c relies on: `strstr` (the first
    occurrence of a pattern) and the whitespace-token scanning of `sscanf`'s
    `%s` conversion. A C string is modelled by its contents, a `seq<char>`
    that holds no NUL. */
module CString {

  datatype Option<+T> = None | Some(value: T)

  /** Character `i` of `s` is not the terminating NUL. */
  predicate NotNulAt(s: string, i: nat)
    requires i < |s|
  {
    s[i] != '\0'
  }

  /** The text is a C string's content: it holds no terminating NUL. */
  predicate IsCText(s: string) {
    forall i :: 0 <= i < |s| ==> NotNulAt(s, i)
  }

  /** `pat` occurs in `s` starting at position `i`. */
  predicate MatchAt(s: string, pat: string, i: nat) {
    i + |pat| <= |s| && forall k {:trigger pat[k]} :: 0 <= k < |pat| ==> s[i + k] == pat[k]
  }

  /** An occurrence at `i` is a slice equal to the pattern. */
  lemma MatchAtSlice(s: string, pat: string, i: nat)
    requires MatchAt(s, pat, i)
    ensures s[i..i + |pat|] == pat
  {
  }

  /** A slice occurs where it was taken. */
  lemma SliceMatches(s: string, a: nat, b: nat)
    requires a <= b <= |s|
    ensures MatchAt(s, s[a..b], a)
  {
    var t := s[a..b];
    forall k | 0 <= k < |t|
      ensures s[a + k] == t[k]
    {
    }
  }

  /** `pat` occurs somewhere in `s`. */
  predicate Occurs(s: string, pat: string) {
    exists i: nat :: i <= |s| && MatchAt(s, pat, i)
  }

  /** An occurrence inside a slice is an occurrence in the whole text. */
  lemma MatchInSlice(s: string, pat: string, a: nat, b: nat, j: nat)
    requires a <= b <= |s| && MatchAt(s[a..b], pat, j)
    ensures MatchAt(s, pat, a + j)
  {
    var t := s[a..b];
    var u, v := t[j..j + |pat|], s[a + j..a + j + |pat|];
    forall k | 0 <= k < |pat|
      ensures u[k] == v[k]
    {
      assert u[k] == t[j + k] == s[a + j + k];
    }
    assert u == v;
  }

  /** `strstr(s + from, pat)`, as an offset into `s`: the first position at
      or after `from` where `pat` occurs in `s`, or None (a NULL result).
      An empty pattern is found at `from` itself. */
  function FindFrom(s: string, pat: string, from: nat): (r: Option<int>)
    requires from <= |s|
    ensures r.Some? ==> from <= r.value && r.value + |pat| <= |s|
    decreases |s| - from
  {
    if from + |pat| > |s| then None
    else if MatchAt(s, pat, from) then Some(from)
    else FindFrom(s, pat, from + 1)
  }

  /** What FindFrom returns is an occurrence. */
  lemma {:induction false} FindFromMatches(s: string, pat: string, from: nat)
    requires from <= |s|
    ensures FindFrom(s, pat, from).Some? ==> MatchAt(s, pat, FindFrom(s, pat, from).value)
    decreases |s| - from
  {
    if from + |pat| <= |s| && !MatchAt(s, pat, from) {
      FindFromMatches(s, pat, from + 1);
    }
  }

  /** FindFrom finds the leftmost occurrence at or after `from`. */
  lemma {:induction false} FindFromLeftmost(s: string, pat: string, from: nat)
    requires from <= |s|
    ensures FindFrom(s, pat, from).Some? ==> MatchAt(s, pat, FindFrom(s, pat, from).value)
    ensures FindFrom(s, pat, from).Some? ==>
      forall j: nat :: from <= j < FindFrom(s, pat, from).value ==> !MatchAt(s, pat, j)
    ensures FindFrom(s, pat, from).None? ==> forall j: nat :: from <= j ==> !MatchAt(s, pat, j)
    decreases |s| - from
  {
    if from + |pat| <= |s| && !MatchAt(s, pat, from) {
      FindFromLeftmost(s, pat, from + 1);
    }
  }

  /** With no occurrence at or after `from`, FindFrom returns None. */
  lemma {:induction false} FindFromNone(s: string, pat: string, from: nat)
    requires from <= |s|
    requires forall j: nat :: from <= j ==> !MatchAt(s, pat, j)
    ensures FindFrom(s, pat, from) == None
    decreases |s| - from
  {
    if from + |pat| <= |s| {
      assert !MatchAt(s, pat, from);
      FindFromNone(s, pat, from + 1);
    }
  }

  /** An occurrence at `i`, with none between `from` and `i`, is what
      FindFrom returns. */
  lemma FindFromIs(s: string, pat: string, from: nat, i: nat)
    requires from <= i && MatchAt(s, pat, i)
    requires forall j: nat :: from <= j < i ==> !MatchAt(s, pat, j)
    ensures FindFrom(s, pat, from) == Some(i)
  {
    FindFromLeftmost(s, pat, from);
    if FindFrom(s, pat, from).Some? {
      var v := FindFrom(s, pat, from).value;
      assert !(v < i) && !(i < v);
    }
  }

  /** `strstr(s, pat)`: the position of the leftmost occurrence of `pat` in
      `s`, or None (a NULL result) when there is none. */
  function FirstMatch(s: string, pat: string): (r: Option<int>)
    ensures r.Some? ==> r.value + |pat| <= |s|
  {
    FindFrom(s, pat, 0)
  }

  /** What `strstr` promises: a result is an occurrence and no occurrence
      starts before it; NULL exactly when there is no occurrence. */
  lemma FirstMatchLeftmost(s: string, pat: string)
    ensures FirstMatch(s, pat).Some? ==> MatchAt(s, pat, FirstMatch(s, pat).value)
    ensures FirstMatch(s, pat).Some? ==>
      forall j: nat :: j < FirstMatch(s, pat).value ==> !MatchAt(s, pat, j)
    ensures FirstMatch(s, pat).None? <==> !Occurs(s, pat)
  {
    FindFromLeftmost(s, pat, 0);
  }

  /** An occurrence at `i` with none before it is what `strstr` returns. */
  lemma FirstMatchIs(s: string, pat: string, i: nat)
    requires MatchAt(s, pat, i)
    requires forall j: nat :: j < i ==> !MatchAt(s, pat, j)
    ensures FirstMatch(s, pat) == Some(i)
  {
    FirstMatchLeftmost(s, pat);
    if FirstMatch(s, pat).Some? {
      var v := FirstMatch(s, pat).value;
      assert !(v < i) && !(i < v);
    }
  }

  /** `isspace` in the C locale, which `%s` uses to delimit tokens. */
  predicate IsSpace(c: char) {
    c == ' ' || c == '\t' || c == '\n' || c == '\U{B}' || c == '\U{C}' || c == '\r'
  }

  /** How many whitespace characters `s` starts with. */
  function LeadingSpaces(s: string): (k: nat)
    ensures k <= |s|
    ensures forall i :: 0 <= i < k ==> IsSpace(s[i])
    ensures k < |s| ==> !IsSpace(s[k])
  {
    if |s| > 0 && IsSpace(s[0]) then 1 + LeadingSpaces(s[1..]) else 0
  }

  /** How many non-whitespace characters `s` starts with. */
  function TokenLength(s: string): (k: nat)
    ensures k <= |s|
    ensures forall i :: 0 <= i < k ==> !IsSpace(s[i])
    ensures k < |s| ==> IsSpace(s[k])
  {
    if |s| > 0 && !IsSpace(s[0]) then 1 + TokenLength(s[1..]) else 0
  }

  /** A `%s` token: non-empty and free of whitespace. */
  predicate IsToken(t: string) {
    |t| > 0 && forall i :: 0 <= i < |t| ==> !IsSpace(t[i])
  }

  /** All of `w` is whitespace. */
  predicate IsBlank(w: string) {
    forall i :: 0 <= i < |w| ==> IsSpace(w[i])
  }

  /** One `%s` conversion of `sscanf`: skip whitespace, then take the longest
      run of non-whitespace. Returns the token and the unread rest, or None
      when the input ends before a token starts (the conversion fails). */
  function ScanToken(s: string): (r: Option<(string, string)>)
  {
    var a := LeadingSpaces(s);
    var k := TokenLength(s[a..]);
    if k == 0 then None else Some((s[a..][..k], s[a..][k..]))
  }

  /** ScanToken splits its input into blank, token and rest, and the rest
      cannot continue the token; it fails only on blank input. */
  lemma ScanTokenSplits(s: string)
    ensures ScanToken(s).None? <==> IsBlank(s)
    ensures ScanToken(s).Some? ==>
      exists w :: IsBlank(w) &&
        s == w + ScanToken(s).value.0 + ScanToken(s).value.1
    ensures ScanToken(s).Some? ==>
      IsToken(ScanToken(s).value.0) &&
      (ScanToken(s).value.1 == [] || IsSpace(ScanToken(s).value.1[0]))
  {
    var a := LeadingSpaces(s);
    var k := TokenLength(s[a..]);
    if k == 0 {
      assert IsBlank(s);
    } else {
      assert IsSpace(s[0]) ==> LeadingSpaces(s) > 0;
      assert !IsBlank(s) by { assert !IsSpace(s[a]); }
      var w := s[..a];
      assert IsBlank(w);
      assert s == w + s[a..][..k] + s[a..][k..];
    }
  }

  /** Reading a token back: blank text followed by a token and then either
      nothing or whitespace scans to exactly that token and rest. */
  lemma ScanTokenOf(w: string, t: string, rest: string)
    requires IsBlank(w) && IsToken(t)
    requires rest == [] || IsSpace(rest[0])
    ensures ScanToken(w + t + rest) == Some((t, rest))
  {
    var s := w + t + rest;
    LeadingSpacesOf(w, t + rest);
    assert s == w + (t + rest);
    assert s[|w|..] == t + rest;
    TokenLengthOf(t, rest);
    assert (t + rest)[..|t|] == t;
    assert (t + rest)[|t|..] == rest;
  }

  lemma {:induction false} LeadingSpacesOf(w: string, u: string)
    requires IsBlank(w)
    requires u == [] || !IsSpace(u[0])
    ensures LeadingSpaces(w + u) == |w|
  {
    if |w| > 0 {
      assert (w + u)[1..] == w[1..] + u;
      LeadingSpacesOf(w[1..], u);
    }
  }

  lemma {:induction false} TokenLengthOf(t: string, rest: string)
    requires forall i :: 0 <= i < |t| ==> !IsSpace(t[i])
    requires rest == [] || IsSpace(rest[0])
    ensures TokenLength(t + rest) == |t|
  {
    if |t| > 0 {
      assert (t + rest)[1..] == t[1..] + rest;
      TokenLengthOf(t[1..], rest);
    }
  }
}
