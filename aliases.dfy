/** The alias file of components/ip.c (`get_aliases`, ip.c:26-55): the file
    `~/.ip_alias` is read with `fgets` into the 41-byte buffer `ip_alias`,
    each chunk read is cut by `strtok` on ':' into an address and its alias,
    and the entries are stored in the static table `p_ipalias[10]`. The file
    is modelled by its contents, or None when `fopen` fails. */
module Aliases {
  import opened CString

  /** `struct ipalias`: an address and the text that replaces it. */
  datatype IpAlias = IpAlias(ip: string, alias: string)

  /** `sizeof(ip_alias) - 1`: the most characters one `fgets` call reads. */
  const ChunkMax: nat := 40
  /** The room in `struct ipalias`'s `ip` field, less the terminating NUL. */
  const IpMax: nat := 15
  /** The room in `struct ipalias`'s `alias` field, less the terminating NUL. */
  const AliasMax: nat := 13
  /** The length of `p_ipalias`. */
  const TableSize: nat := 10

  /** How many characters `fgets` with room for `room` characters reads
      from offset `pos`: up to and including the first '\n', at most
      `room`, and no further than the end of the file. */
  function FgetsLength(s: string, pos: nat, room: nat): (k: nat)
    requires pos <= |s|
    ensures k <= room && pos + k <= |s|
    ensures room > 0 && pos < |s| ==> k > 0
    decreases room
  {
    if room == 0 || pos == |s| then 0
    else if s[pos] == '\n' then 1
    else 1 + FgetsLength(s, pos + 1, room - 1)
  }

  /** What `fgets` reads holds no '\n' but possibly as its last character,
      and when it stops short of `room`, it stops after a '\n' or at the end
      of the file. */
  lemma {:induction false} FgetsLengthSpec(s: string, pos: nat, room: nat)
    requires pos <= |s|
    ensures var k := FgetsLength(s, pos, room);
      (forall j :: pos <= j < pos + k - 1 ==> s[j] != '\n') &&
      (k < room ==> pos + k == |s| || (k > 0 && s[pos + k - 1] == '\n'))
    decreases room
  {
    if room > 0 && pos < |s| && s[pos] != '\n' {
      FgetsLengthSpec(s, pos + 1, room - 1);
    }
  }

  /** A line of at most `room` characters ending in its only '\n' is read
      whole. */
  lemma {:induction false} FgetsLine(s: string, pos: nat, room: nat, n: nat)
    requires pos + n <= |s| && 0 < n <= room
    requires s[pos + n - 1] == '\n'
    requires forall j :: pos <= j < pos + n - 1 ==> s[j] != '\n'
    ensures FgetsLength(s, pos, room) == n
    decreases n
  {
    if n > 1 {
      FgetsLine(s, pos + 1, room - 1, n - 1);
    }
  }

  /** How many chunks successive `fgets` calls read from offset `pos` on
      before reaching the end of the file. */
  function ChunkCountFrom(s: string, pos: nat): nat
    requires pos <= |s|
    decreases |s| - pos
  {
    if pos == |s| then 0 else 1 + ChunkCountFrom(s, pos + FgetsLength(s, pos, ChunkMax))
  }

  /** How many times the `fgets` loop of ip.c:39 runs on a file. */
  function ChunkCount(s: string): nat
  {
    ChunkCountFrom(s, 0)
  }

  /** The file offset the `fgets` loop has reached after `i` calls (the end
      of the file once it has been read whole). */
  function ChunkStart(s: string, i: nat): (p: nat)
    ensures p <= |s|
  {
    if i == 0 then 0
    else
      var p := ChunkStart(s, i - 1);
      if p == |s| then p else p + FgetsLength(s, p, ChunkMax)
  }

  /** The characters `fgets` with room for `room` characters copies from
      offset `pos`. */
  function FgetsRead(s: string, pos: nat, room: nat): (r: string)
    requires pos <= |s|
    decreases room
  {
    if room == 0 || pos == |s| then []
    else if s[pos] == '\n' then [s[pos]]
    else [s[pos]] + FgetsRead(s, pos + 1, room - 1)
  }

  /** `fgets` copies the text at `pos` whose length FgetsLength gives. */
  lemma {:induction false} FgetsReadMatches(s: string, pos: nat, room: nat)
    requires pos <= |s|
    ensures |FgetsRead(s, pos, room)| == FgetsLength(s, pos, room)
    ensures MatchAt(s, FgetsRead(s, pos, room), pos)
    decreases room
  {
    if room > 0 && pos < |s| && s[pos] != '\n' {
      FgetsReadMatches(s, pos + 1, room - 1);
      var r, r' := FgetsRead(s, pos, room), FgetsRead(s, pos + 1, room - 1);
      assert r == [s[pos]] + r';
      forall k | 0 <= k < |r|
        ensures s[pos + k] == r[k]
      {
        if k > 0 {
          assert r[k] == r'[k - 1];
          assert s[pos + 1 + (k - 1)] == r'[k - 1];
        }
      }
    }
  }

  /** What the `i`-th `fgets` call (from 0) copies into `ip_alias`. */
  function Chunk(s: string, i: nat): string
  {
    FgetsRead(s, ChunkStart(s, i), ChunkMax)
  }

  /** The chunks the `fgets` loop reads, in file order. */
  function Chunks(s: string): (cs: seq<string>)
    ensures |cs| == ChunkCount(s)
  {
    seq(ChunkCount(s), i requires 0 <= i => Chunk(s, i))
  }

  /** After `i` of the chunks, the rest of the file holds the others. */
  lemma {:induction false} CountAfter(s: string, i: nat)
    requires i <= ChunkCount(s)
    ensures i + ChunkCountFrom(s, ChunkStart(s, i)) == ChunkCount(s)
  {
    if i > 0 {
      CountAfter(s, i - 1);
      var p := ChunkStart(s, i - 1);
      assert ChunkCountFrom(s, p) > 0;
    }
  }

  /** While the file has not ended, the loop reads one more chunk, of 1 to
      `ChunkMax` characters. */
  lemma ChunkAt(s: string, i: nat)
    requires i <= ChunkCount(s) && ChunkStart(s, i) < |s|
    ensures i < ChunkCount(s)
    ensures var p := ChunkStart(s, i);
      ChunkStart(s, i + 1) == p + FgetsLength(s, p, ChunkMax)
  {
    CountAfter(s, i);
  }

  /** Once the loop reaches the end of the file, every chunk has been read. */
  lemma NoChunksLeft(s: string, i: nat)
    requires i <= ChunkCount(s) && ChunkStart(s, i) == |s|
    ensures i == ChunkCount(s)
  {
    CountAfter(s, i);
  }

  /** The chunks tile the file: chunk `i` is the text between two
      successive loop positions and holds 1 to `ChunkMax` characters, and
      the last one ends the file. */
  lemma ChunksTile(s: string)
    ensures ChunkStart(s, ChunkCount(s)) == |s|
    ensures forall i :: 0 <= i < ChunkCount(s) ==>
      ChunkStart(s, i) < ChunkStart(s, i + 1) <= ChunkStart(s, i) + ChunkMax &&
      ChunkStart(s, i) + |Chunk(s, i)| == ChunkStart(s, i + 1) &&
      MatchAt(s, Chunk(s, i), ChunkStart(s, i))
  {
    CountAfter(s, ChunkCount(s));
    forall i | 0 <= i < ChunkCount(s)
      ensures ChunkStart(s, i) < ChunkStart(s, i + 1) <= ChunkStart(s, i) + ChunkMax
      ensures ChunkStart(s, i) + |Chunk(s, i)| == ChunkStart(s, i + 1)
      ensures MatchAt(s, Chunk(s, i), ChunkStart(s, i))
    {
      CountAfter(s, i);
      FgetsReadMatches(s, ChunkStart(s, i), ChunkMax);
    }
  }

  /** Two texts found at the same offset with the same length are equal. */
  lemma SameMatch(s: string, a: string, b: string, pos: nat)
    requires MatchAt(s, a, pos) && MatchAt(s, b, pos) && |a| == |b|
    ensures a == b
  {
    forall k | 0 <= k < |a|
      ensures a[k] == b[k]
    {
      assert s[pos + k] == a[k];
    }
  }

  /** The first position in `[from, end)` that is not the delimiter ':', or
      `end`. */
  function SkipDelims(s: string, from: nat, end: nat): (a: nat)
    requires from <= end <= |s|
    ensures from <= a <= end
    ensures a < end ==> s[a] != ':'
    decreases end - from
  {
    if from < end && s[from] == ':' then SkipDelims(s, from + 1, end) else from
  }

  /** Everything SkipDelims skips is a delimiter. */
  lemma {:induction false} SkipDelimsSpec(s: string, from: nat, end: nat)
    requires from <= end <= |s|
    ensures forall j :: from <= j < SkipDelims(s, from, end) ==> s[j] == ':'
    decreases end - from
  {
    if from < end && s[from] == ':' {
      SkipDelimsSpec(s, from + 1, end);
    }
  }

  /** The first position in `[a, end)` that is the delimiter ':', or `end`. */
  function TokenEnd(s: string, a: nat, end: nat): (b: nat)
    requires a <= end <= |s|
    ensures a <= b <= end
    ensures b < end ==> s[b] == ':'
    decreases end - a
  {
    if a < end && s[a] != ':' then TokenEnd(s, a + 1, end) else a
  }

  /** A token holds no delimiter. */
  lemma {:induction false} TokenEndSpec(s: string, a: nat, end: nat)
    requires a <= end <= |s|
    ensures forall j :: a <= j < TokenEnd(s, a, end) ==> s[j] != ':'
    decreases end - a
  {
    if a < end && s[a] != ':' {
      TokenEndSpec(s, a + 1, end);
    }
  }

  /** The token TokenEnd finds ends at the first delimiter. */
  lemma {:induction false} TokenEndAt(s: string, a: nat, end: nat, b: nat)
    requires a <= b <= end <= |s|
    requires forall j :: a <= j < b ==> s[j] != ':'
    requires b < end ==> s[b] == ':'
    ensures TokenEnd(s, a, end) == b
    decreases b - a
  {
    if a < b {
      TokenEndAt(s, a + 1, end, b);
    }
  }

  /** A `strtok` token: it is `s[start..stop]`, and the next call resumes at
      `resume`. */
  datatype Token = Token(start: nat, stop: nat, resume: nat)

  /** `strtok` with the delimiter ":" on the buffer `s[..end]`, resuming at
      offset `from`: leading delimiters are skipped; None (a NULL result)
      when nothing is left; otherwise the token runs to the next ':' or the
      end of the buffer, and that ':' is consumed. */
  function StrTok(s: string, from: nat, end: nat): (r: Option<Token>)
    requires from <= end <= |s|
    ensures r.Some? ==> from <= r.value.start < r.value.stop <= r.value.resume <= end
  {
    var a := SkipDelims(s, from, end);
    if a == end then None
    else
      var b := TokenEnd(s, a, end);
      Some(Token(a, b, if b < end then b + 1 else b))
  }

  /** What `strtok` skips is delimiters, the token holds none, and the token
      is followed by a delimiter or the end of the buffer. */
  lemma StrTokSpec(s: string, from: nat, end: nat)
    requires from <= end <= |s|
    ensures StrTok(s, from, end).None? <==> forall j :: from <= j < end ==> s[j] == ':'
    ensures StrTok(s, from, end).Some? ==>
      var t := StrTok(s, from, end).value;
      (forall j :: from <= j < t.start ==> s[j] == ':') &&
      (forall j :: t.start <= j < t.stop ==> s[j] != ':') &&
      (t.stop < end ==> s[t.stop] == ':' && t.resume == t.stop + 1) &&
      (t.stop == end ==> t.resume == end)
  {
    var a := SkipDelims(s, from, end);
    SkipDelimsSpec(s, from, end);
    TokenEndSpec(s, a, end);
    if a < end {
      assert s[a] != ':';
    }
  }

  /** `strcspn` for one character `c`, on `s[from..end]`: the first offset
      in `[from, end)` holding `c`, or `end`. */
  function Strcspn(s: string, from: nat, end: nat, c: char): (k: nat)
    requires from <= end <= |s|
    ensures from <= k <= end
    ensures k < end ==> s[k] == c
    decreases end - from
  {
    if from == end || s[from] == c then from else Strcspn(s, from + 1, end, c)
  }

  /** The text before the offset Strcspn returns holds no `c`. */
  lemma {:induction false} StrcspnSpec(s: string, from: nat, end: nat, c: char)
    requires from <= end <= |s|
    ensures forall j :: from <= j < Strcspn(s, from, end, c) ==> s[j] != c
    decreases end - from
  {
    if from < end && s[from] != c {
      StrcspnSpec(s, from + 1, end, c);
    }
  }

  lemma {:induction false} StrcspnAt(s: string, from: nat, end: nat, c: char, k: nat)
    requires from <= k < end <= |s| && s[k] == c
    requires forall j :: from <= j < k ==> s[j] != c
    ensures Strcspn(s, from, end, c) == k
    decreases k - from
  {
    if from < k {
      StrcspnAt(s, from + 1, end, c, k);
    }
  }

  /** The chunk `c` taken apart as ip.c:40-42 does: the first `strtok`
      token is the address, the second, cut at its first '\n'
      (`alias[strcspn(alias, "\n")] = 0`), the alias. None when a token is
      missing. */
  function ParseChunk(c: string): Option<IpAlias>
  {
    match StrTok(c, 0, |c|)
    case None => None
    case Some(ip) =>
      match StrTok(c, ip.resume, |c|)
      case None => None
      case Some(alias) =>
        var a := c[alias.start..alias.stop];
        Some(IpAlias(c[ip.start..ip.stop], a[..Strcspn(a, 0, |a|, '\n')]))
  }

  /** The entries `get_aliases` stores from a file with contents `s`: one
      per `fgets` chunk, in file order; a chunk without two tokens gives
      None. */
  function Entries(s: string): (r: seq<Option<IpAlias>>)
    ensures |r| == ChunkCount(s)
  {
    seq(ChunkCount(s), i requires 0 <= i => ParseChunk(Chunk(s, i)))
  }

  /** An entry the two `strcpy`s at ip.c:44-45 can store: it exists, and its
      address and alias fit the 16- and 14-byte fields. */
  predicate EntryFits(e: Option<IpAlias>)
  {
    e.Some? && |e.value.ip| <= IpMax && |e.value.alias| <= AliasMax
  }

  /** Chunk `k` of the file gives an entry that fits. */
  predicate ChunkFits(s: string, k: nat)
  {
    EntryFits(ParseChunk(Chunk(s, k)))
  }

  /** A file `get_aliases` reads without undefined behaviour: it holds no
      NUL, has no more chunks than `p_ipalias` has slots, and each chunk
      gives an entry that fits. */
  predicate AliasFileFits(s: string)
  {
    IsCText(s) && ChunkCount(s) <= TableSize &&
    forall k :: 0 <= k < ChunkCount(s) ==> ChunkFits(s, k)
  }

  /** `get_aliases(p_ipalias)` (ip.c:37-54): a missing file stores nothing
      and returns 0; otherwise entry `i` is parsed from the `i`-th `fgets`
      chunk, the entries are stored in file order from slot 0, and the
      number of chunks read is returned. The slots past the count keep what
      they held. */
  method GetAliases(table: array<Option<IpAlias>>, file: Option<string>) returns (n: nat)
    requires table.Length == TableSize
    requires file.Some? ==> AliasFileFits(file.value)
    modifies table
    ensures file.None? ==> n == 0
    ensures file.Some? ==> n == ChunkCount(file.value) <= TableSize
    ensures file.Some? ==> forall j :: 0 <= j < n ==> table[j] == ParseChunk(Chunk(file.value, j))
    ensures forall j :: n <= j < table.Length ==> table[j] == old(table[j])
  {
    if file.None? {
      return 0;
    }
    var s := file.value;
    var pos: nat := 0;
    var i: nat := 0;
    while pos < |s|
      invariant i <= ChunkCount(s) && pos == ChunkStart(s, i)
      invariant forall j :: 0 <= j < i ==> table[j] == ParseChunk(Chunk(s, j))
      invariant forall j :: i <= j < table.Length ==> table[j] == old(table[j])
      decreases |s| - pos
    {
      pos := ReadEntry(table, s, pos, i);
      i := i + 1;
    }
    NoChunksLeft(s, i);
    return i;
  }

  /** One pass of the loop of ip.c:39-53 after `i` chunks: read chunk `i`,
      store the entry parsed from it in slot `i`, and return the offset the
      next `fgets` call starts from. */
  method ReadEntry(table: array<Option<IpAlias>>, s: string, pos: nat, i: nat) returns (next: nat)
    requires table.Length == TableSize && ChunkCount(s) <= TableSize
    requires i <= ChunkCount(s) && pos == ChunkStart(s, i) < |s|
    modifies table
    ensures i < ChunkCount(s) && next == ChunkStart(s, i + 1)
    ensures table[i] == ParseChunk(Chunk(s, i))
    ensures forall j :: 0 <= j < table.Length && j != i ==> table[j] == old(table[j])
  {
    var chunk := Fgets(s, pos, i);
    table[i] := ParseChunk(chunk);
    next := pos + |chunk|;
  }

  /** `fgets(ip_alias, sizeof(ip_alias), fip)` where the loop stands after
      `i` chunks, before the end of the file: it copies chunk `i`. */
  method Fgets(s: string, pos: nat, ghost i: nat) returns (chunk: string)
    requires i <= ChunkCount(s) && pos == ChunkStart(s, i) < |s|
    ensures i < ChunkCount(s) && chunk == Chunk(s, i)
    ensures pos + |chunk| == ChunkStart(s, i + 1)
  {
    var k := FgetsLength(s, pos, ChunkMax);
    chunk := s[pos..pos + k];
    ChunkAt(s, i);
    FgetsReadMatches(s, pos, ChunkMax);
    SliceMatches(s, pos, pos + k);
    SameMatch(s, chunk, Chunk(s, i), pos);
  }

  /** The line an entry is written as in the alias file. */
  function Line(e: IpAlias): string
  {
    e.ip + ":" + e.alias + "\n"
  }

  /** The alias file listing `entries`, one line each. */
  function Render(entries: seq<IpAlias>): string
  {
    if |entries| == 0 then [] else Line(entries[0]) + Render(entries[1..])
  }

  /** An entry that can be written as a line and read back: a non-empty
      address and an alias, neither holding ':', '\n' or NUL, that fit
      their fields. */
  predicate Writable(e: IpAlias)
  {
    0 < |e.ip| <= IpMax && |e.alias| <= AliasMax &&
    (forall j :: 0 <= j < |e.ip| ==> e.ip[j] != ':' && e.ip[j] != '\n' && e.ip[j] != '\0') &&
    (forall j :: 0 <= j < |e.alias| ==> e.alias[j] != ':' && e.alias[j] != '\n' && e.alias[j] != '\0')
  }

  /** Where the parts of an entry sit in its line. */
  lemma LineShape(e: IpAlias)
    ensures var l, n, m := Line(e), |e.ip|, |e.alias|;
      |l| == n + m + 2 && l[..n] == e.ip && l[n] == ':' &&
      l[n + 1..n + 1 + m] == e.alias && l[n + 1 + m] == '\n'
  {
    var l, n, m := Line(e), |e.ip|, |e.alias|;
    assert l == e.ip + ([':'] + e.alias + ['\n']);
    assert l[n + 1..] == e.alias + ['\n'];
  }

  /** The line of a writable entry holds ':' only after the address and
      '\n' only at its end. */
  lemma LineFree(e: IpAlias)
    requires Writable(e)
    ensures var l, n, m := Line(e), |e.ip|, |e.alias|;
      |l| == n + m + 2 && l[n] == ':' && l[n + 1 + m] == '\n'
    ensures var l, n := Line(e), |e.ip|;
      (forall j :: 0 <= j < n ==> l[j] != ':') &&
      (forall j :: n < j < |l| ==> l[j] != ':') &&
      (forall j :: 0 <= j < |l| - 1 ==> l[j] != '\n') &&
      (forall j :: 0 <= j < |l| ==> l[j] != '\0')
  {
  }

  /** The text at an occurrence keeps what the pattern is free of. */
  lemma MatchFree(s: string, t: string, pos: nat, c: char, lo: nat, hi: nat)
    requires MatchAt(s, t, pos) && lo <= hi <= |t|
    requires forall j :: lo <= j < hi ==> t[j] != c
    ensures forall j :: pos + lo <= j < pos + hi ==> s[j] != c
  {
    forall j | pos + lo <= j < pos + hi
      ensures s[j] != c
    {
      assert s[pos + (j - pos)] == t[j - pos];
    }
  }

  /** A written line is taken apart into the entry it was written from. */
  lemma ParseLine(e: IpAlias)
    requires Writable(e)
    ensures ParseChunk(Line(e)) == Some(e)
  {
    var c, n, m := Line(e), |e.ip|, |e.alias|;
    LineFree(e);
    // the first token is the address
    assert SkipDelims(c, 0, |c|) == 0;
    TokenEndAt(c, 0, |c|, n);
    assert StrTok(c, 0, |c|) == Some(Token(0, n, n + 1));
    // the second token is the alias and its '\n'
    assert SkipDelims(c, n + 1, |c|) == n + 1;
    TokenEndAt(c, n + 1, |c|, |c|);
    assert StrTok(c, n + 1, |c|) == Some(Token(n + 1, |c|, |c|));
    LineShape(e);
    var a := c[n + 1..|c|];
    assert a == e.alias + "\n";
    StrcspnAt(a, 0, |a|, '\n', m);
    assert c[0..n] == c[..n];
  }

  /** A written line, found at offset `pos` of a file, is read whole by one
      `fgets` call. */
  lemma FgetsReadsLine(s: string, pos: nat, e: IpAlias)
    requires Writable(e) && MatchAt(s, Line(e), pos)
    ensures FgetsLength(s, pos, ChunkMax) == |Line(e)|
    ensures FgetsRead(s, pos, ChunkMax) == Line(e)
  {
    var l := Line(e);
    LineFree(e);
    MatchFree(s, l, pos, '\n', 0, |l| - 1);
    assert s[pos + (|l| - 1)] == l[|l| - 1];
    FgetsLine(s, pos, ChunkMax, |l|);
    FgetsReadMatches(s, pos, ChunkMax);
    SameMatch(s, FgetsRead(s, pos, ChunkMax), l, pos);
  }

  /** An occurrence of `a + b` is one of `a` followed by one of `b`. */
  lemma MatchSplit(s: string, a: string, b: string, pos: nat)
    requires MatchAt(s, a + b, pos)
    ensures MatchAt(s, a, pos) && MatchAt(s, b, pos + |a|)
  {
    var t := a + b;
    forall k | 0 <= k < |a|
      ensures s[pos + k] == a[k]
    {
      assert s[pos + k] == t[k];
    }
    forall k | 0 <= k < |b|
      ensures s[pos + |a| + k] == b[k]
    {
      assert s[pos + (|a| + k)] == t[|a| + k];
    }
  }

  /** Where the rendering of `entries` continues the file at the loop
      position after `i` chunks, the next `fgets` call reads the first
      line whole and leaves the loop at the rendering of the others. */
  lemma RenderStep(s: string, i: nat, entries: seq<IpAlias>)
    requires |entries| > 0 && Writable(entries[0])
    requires MatchAt(s, Render(entries), ChunkStart(s, i))
    ensures var p := ChunkStart(s, i);
      p < |s| && ChunkStart(s, i + 1) == p + |Line(entries[0])| &&
      ChunkCountFrom(s, p) == 1 + ChunkCountFrom(s, ChunkStart(s, i + 1)) &&
      MatchAt(s, Render(entries[1..]), ChunkStart(s, i + 1))
  {
    var e, p := entries[0], ChunkStart(s, i);
    assert Render(entries) == Line(e) + Render(entries[1..]);
    MatchSplit(s, Line(e), Render(entries[1..]), p);
    FgetsReadsLine(s, p, e);
  }

  /** There the chunk read is the first line. */
  lemma RenderFirst(s: string, i: nat, entries: seq<IpAlias>)
    requires |entries| > 0 && Writable(entries[0])
    requires MatchAt(s, Render(entries), ChunkStart(s, i))
    ensures Chunk(s, i) == Line(entries[0])
  {
    var e, p := entries[0], ChunkStart(s, i);
    assert Render(entries) == Line(e) + Render(entries[1..]);
    MatchSplit(s, Line(e), Render(entries[1..]), p);
    FgetsReadsLine(s, p, e);
  }

  /** Where the rendering of `entries` fills the rest of the file from the
      loop position after `i` chunks, the loop reads one chunk per entry. */
  lemma {:induction false} RenderCount(s: string, i: nat, entries: seq<IpAlias>)
    requires forall k :: 0 <= k < |entries| ==> Writable(entries[k])
    requires MatchAt(s, Render(entries), ChunkStart(s, i))
    requires ChunkStart(s, i) + |Render(entries)| == |s|
    ensures ChunkCountFrom(s, ChunkStart(s, i)) == |entries|
    decreases |entries|
  {
    if |entries| > 0 {
      RenderStep(s, i, entries);
      assert Render(entries) == Line(entries[0]) + Render(entries[1..]);
      RenderCount(s, i + 1, entries[1..]);
    }
  }

  /** Where the rendering of `entries` continues the file from the loop
      position after `i` chunks, chunk `i + k` is the line of entry `k`. */
  lemma {:induction false} RenderChunk(s: string, i: nat, entries: seq<IpAlias>, k: nat, n: nat)
    requires forall j :: 0 <= j < |entries| ==> Writable(entries[j])
    requires MatchAt(s, Render(entries), ChunkStart(s, i))
    requires k < |entries| && n == i + k
    ensures Chunk(s, n) == Line(entries[k])
    decreases k
  {
    if k == 0 {
      RenderFirst(s, i, entries);
    } else {
      RenderStep(s, i, entries);
      RenderChunk(s, i + 1, entries[1..], k - 1, n);
      assert entries[1..][k - 1] == entries[k];
    }
  }

  /** Writing up to ten entries as lines and reading the file back with
      `get_aliases` gives the same entries in the same order, and the file
      fits. */
  lemma RenderParse(entries: seq<IpAlias>)
    requires |entries| <= TableSize
    requires forall k :: 0 <= k < |entries| ==> Writable(entries[k])
    ensures AliasFileFits(Render(entries))
    ensures |Entries(Render(entries))| == |entries|
    ensures forall k :: 0 <= k < |entries| ==> Entries(Render(entries))[k] == Some(entries[k])
  {
    var s := Render(entries);
    assert MatchAt(s, s, 0);
    RenderCount(s, 0, entries);
    RenderIsCText(entries);
    var all := Entries(s);
    forall k | 0 <= k < |entries|
      ensures all[k] == Some(entries[k]) && ChunkFits(s, k)
    {
      RenderEntry(entries, k);
    }
  }

  /** Chunk `k` of the rendered file parses to entry `k`. */
  lemma RenderEntry(entries: seq<IpAlias>, k: nat)
    requires forall j :: 0 <= j < |entries| ==> Writable(entries[j])
    requires k < |entries|
    ensures ParseChunk(Chunk(Render(entries), k)) == Some(entries[k])
  {
    var c, e := Chunk(Render(entries), k), entries[k];
    RenderLine(entries, k);
    ParseLine(e);
    assert ParseChunk(c) == Some(e);
  }

  /** Chunk `k` of the rendered file is the line of entry `k`. */
  lemma RenderLine(entries: seq<IpAlias>, k: nat)
    requires forall j :: 0 <= j < |entries| ==> Writable(entries[j])
    requires k < |entries|
    ensures Chunk(Render(entries), k) == Line(entries[k])
  {
    var s := Render(entries);
    assert MatchAt(s, s, 0);
    RenderChunk(s, 0, entries, k, k);
  }

  /** A rendered file of writable entries holds no NUL. */
  lemma {:induction false} RenderIsCText(entries: seq<IpAlias>)
    requires forall k :: 0 <= k < |entries| ==> Writable(entries[k])
    ensures IsCText(Render(entries))
  {
    if |entries| > 0 {
      RenderIsCText(entries[1..]);
      var r, l, t := Render(entries), Line(entries[0]), Render(entries[1..]);
      LineFree(entries[0]);
      assert r == l + t;
      forall i | 0 <= i < |r|
        ensures NotNulAt(r, i)
      {
        if i >= |l| {
          assert r[i] == t[i - |l|] && NotNulAt(t, i - |l|);
        }
      }
    }
  }
}
