/** `leaked_ip` of components/ip.c: send a fixed HTTP request to ip-api.com,
    take the body of the reply apart into two whitespace tokens, format
    them, and rewrite known addresses into their aliases from the alias
    file, which is read once per process. DNS, the socket calls and the
    reply are inputs: an `Outcome` names the step that failed, or gives the
    results of the `write` calls and the text the reply leaves in `buf`. */
module LeakedIp {
  import opened CString
  import opened StrReplace
  import opened Aliases

  /** `check_request`, sent to the server. */
  const Request: string := "GET /line/?fields=query,country HTTP/1.1\r\nHost: ip-api.com\r\n\r\n"

  /** `bad_addr`, returned on every failure. */
  const BadAddr: string := "X.X.X.X(Unavailable)"

  /** The end of the HTTP header, searched for with `strstr`. */
  const HeaderEnd: string := "\r\n\r\n"

  /** What one `write(remote_fd, p, n)` call does: it is interrupted
      (EINTR), fails otherwise, or writes `count` bytes. */
  datatype WriteResult = Interrupted | Failed | Wrote(count: nat)

  /** The write results carry the loop of ip.c:192-206, with `n` bytes
      left, to its end: each count is between 1 and the bytes left, as
      `write` guarantees, and the results last until the bytes left reach 0
      or a call fails. */
  predicate Drives(writes: seq<WriteResult>, n: nat)
    decreases |writes|
  {
    n == 0 ||
    (|writes| > 0 &&
     match writes[0]
     case Interrupted => Drives(writes[1..], n)
     case Failed => true
     case Wrote(c) => 1 <= c <= n && Drives(writes[1..], n - c))
  }

  /** The loop gets all `n` bytes out: it ends without a failed call. */
  predicate SendsAll(writes: seq<WriteResult>, n: nat)
    requires Drives(writes, n)
    decreases |writes|
  {
    n == 0 ||
    match writes[0]
    case Interrupted => SendsAll(writes[1..], n)
    case Failed => false
    case Wrote(c) => SendsAll(writes[1..], n - c)
  }

  /** The bytes the successful calls among `writes` report written. */
  function Written(writes: seq<WriteResult>): nat
  {
    if |writes| == 0 then 0
    else (if writes[0].Wrote? then writes[0].count else 0) + Written(writes[1..])
  }

  /** `writes` holds no failed call. */
  predicate NoFailure(writes: seq<WriteResult>)
  {
    forall k :: 0 <= k < |writes| ==> !writes[k].Failed?
  }

  /** The loop stops because every byte is out exactly when some prefix of
      the results, free of failures, reports all of them written. */
  lemma {:induction false} SendsAllPrefix(writes: seq<WriteResult>, n: nat)
    requires Drives(writes, n)
    ensures SendsAll(writes, n) <==>
      exists k :: 0 <= k <= |writes| && NoFailure(writes[..k]) && Written(writes[..k]) == n
    ensures NoFailure(writes) ==> SendsAll(writes, n)
    decreases |writes|
  {
    assert writes[..0] == [];
    if n > 0 {
      var w, rest := writes[0], writes[1..];
      var m := if w.Wrote? then n - w.count else n;
      if !w.Failed? {
        SendsAllPrefix(rest, m);
        if SendsAll(writes, n) {
          var k :| 0 <= k <= |rest| && NoFailure(rest[..k]) && Written(rest[..k]) == m;
          assert writes[..k + 1] == [w] + rest[..k];
          assert writes[..k + 1][1..] == rest[..k];
        }
        if exists k :: 0 <= k <= |writes| && NoFailure(writes[..k]) && Written(writes[..k]) == n {
          var k :| 0 <= k <= |writes| && NoFailure(writes[..k]) && Written(writes[..k]) == n;
          assert k > 0;
          PrefixTail(writes, k);
        }
        if NoFailure(writes) {
          assert NoFailure(rest) by {
            forall k | 0 <= k < |rest|
              ensures !rest[k].Failed?
            {
              assert rest[k] == writes[k + 1];
            }
          }
        }
      } else {
        forall k | 0 <= k <= |writes|
          ensures !(NoFailure(writes[..k]) && Written(writes[..k]) == n)
        {
          if k > 0 {
            assert writes[..k][0] == w;
          }
        }
      }
    }
  }

  /** A failure-free prefix of `k > 0` results is its first result, which
      is not a failure, followed by a failure-free prefix of the others. */
  lemma PrefixTail(writes: seq<WriteResult>, k: nat)
    requires 0 < k <= |writes| && NoFailure(writes[..k])
    ensures !writes[0].Failed? && NoFailure(writes[1..][..k - 1])
    ensures Written(writes[..k]) ==
      (if writes[0].Wrote? then writes[0].count else 0) + Written(writes[1..][..k - 1])
  {
    var pre, tail := writes[..k], writes[1..][..k - 1];
    assert pre[0] == writes[0];
    assert pre[1..] == tail;
    forall j | 0 <= j < |tail|
      ensures !tail[j].Failed?
    {
      assert tail[j] == pre[j + 1];
    }
  }

  /** The write loop of ip.c:190-206. `p` is the offset into
      `check_request` and `n` the bytes left, so `p + n` is always the
      request length; an interrupted call is retried without moving `p`;
      any other failure stops the loop. `sent` is what the server has
      received: with `ok` the whole request, otherwise a proper prefix. */
  method SendRequest(writes: seq<WriteResult>) returns (ok: bool, sent: string)
    requires Drives(writes, |Request|)
    ensures ok == SendsAll(writes, |Request|)
    ensures ok ==> sent == Request
    ensures !ok ==> |sent| < |Request| && sent == Request[..|sent|]
  {
    var n: nat := |Request|;
    var p: nat := 0;
    var k: nat := 0;
    sent := [];
    while n > 0
      invariant k <= |writes| && p + n == |Request|
      invariant sent == Request[..p]
      invariant Drives(writes[k..], n)
      invariant SendsAll(writes, |Request|) == SendsAll(writes[k..], n)
      decreases |writes| - k
    {
      var w := writes[k];
      assert writes[k..][1..] == writes[k + 1..];
      match w
      case Interrupted =>
        k := k + 1;
      case Failed =>
        return false, sent;
      case Wrote(s) =>
        sent := sent + Request[p..p + s];
        n := n - s;
        p := p + s;
        k := k + 1;
    }
    assert Request[..p] == Request;
    return true, sent;
  }

  /** The body of the reply: what follows the first "\r\n\r\n"
      (`p = strstr(buf, "\r\n\r\n"); p += 4`), or None when there is
      none. */
  function Body(resp: string): (b: Option<string>)
    ensures b.None? <==> !Occurs(resp, HeaderEnd)
  {
    FirstMatchLeftmost(resp, HeaderEnd);
    match FirstMatch(resp, HeaderEnd)
    case None => None
    case Some(i) => Some(resp[i + 4..])
  }

  /** The body holds the two whitespace tokens the `sscanf` calls of
      ip.c:219-221 read. */
  predicate HasTwoTokens(body: string)
  {
    ScanToken(body).Some? && ScanToken(ScanToken(body).value.1).Some?
  }

  /** The text ip.c:219-222 builds in `buf`: the second token of the body,
      "(", the first token, ")". */
  function FormatBody(body: string): string
    requires HasTwoTokens(body)
  {
    var (first, rest) := ScanToken(body).value;
    var second := ScanToken(rest).value.0;
    second + "(" + first + ")"
  }

  /** A reply the code handles without undefined behaviour: it holds no
      NUL, and if it has a body, the body has two tokens. */
  predicate WellFormedReply(resp: string)
  {
    IsCText(resp) && (Body(resp).Some? ==> HasTwoTokens(Body(resp).value))
  }

  /** ip.c:212-222 on the reply left in `buf`: find "\r\n\r\n" with
      `strstr`, step over it, and build the second token, "(", the first
      token and ")". None stands for the bad-response path. */
  method ParseReply(resp: string) returns (buf: Option<string>)
    requires WellFormedReply(resp)
    ensures buf.None? <==> !Occurs(resp, HeaderEnd)
    ensures buf.Some? ==> Body(resp).Some? && buf.value == FormatBody(Body(resp).value)
  {
    var m := FirstMatch(resp, HeaderEnd);
    if m.None? {
      return None;
    }
    var p := m.value + 4;
    buf := Some(FormatBody(resp[p..]));
  }

  /** Reading a reply back: a header with no earlier "\r\n\r\n", then
      "\r\n\r\n", then blank text, a token, blank text, a second token and
      the rest, gives the second token followed by the first in
      parentheses. */
  lemma ReplyRoundTrip(head: string, w1: string, t1: string, w2: string, t2: string, rest: string)
    requires forall j: nat :: j < |head| ==>
      !MatchAt(head + HeaderEnd + (w1 + t1 + w2 + t2 + rest), HeaderEnd, j)
    requires IsBlank(w1) && IsToken(t1) && IsBlank(w2) && |w2| > 0 && IsToken(t2)
    requires rest == [] || IsSpace(rest[0])
    ensures Body(head + HeaderEnd + (w1 + t1 + w2 + t2 + rest)) == Some(w1 + t1 + w2 + t2 + rest)
    ensures HasTwoTokens(w1 + t1 + w2 + t2 + rest)
    ensures FormatBody(w1 + t1 + w2 + t2 + rest) == t2 + "(" + t1 + ")"
  {
    var body := w1 + t1 + w2 + t2 + rest;
    var resp := head + HeaderEnd + body;
    assert MatchAt(resp, HeaderEnd, |head|) by {
      forall k | 0 <= k < |HeaderEnd|
        ensures resp[|head| + k] == HeaderEnd[k]
      {
        assert resp[|head| + k] == (head + HeaderEnd)[|head| + k];
      }
    }
    FirstMatchIs(resp, HeaderEnd, |head|);
    assert resp[|head| + 4..] == body;
    var after := w2 + t2 + rest;
    assert IsSpace(after[0]) by { assert after[0] == w2[0]; }
    assert body == w1 + t1 + after;
    ScanTokenOf(w1, t1, after);
    ScanTokenOf(w2, t2, rest);
  }

  /** A body of an address and a country code comes out country first:
      "1.2.3.4 US\r\n" is formatted as "US(1.2.3.4)". */
  lemma FormatCountryFirst(ip: string, cc: string)
    requires IsToken(ip) && IsToken(cc)
    ensures HasTwoTokens(ip + " " + cc + "\r\n")
    ensures FormatBody(ip + " " + cc + "\r\n") == cc + "(" + ip + ")"
  {
    var rest := " " + cc + "\r\n";
    assert ip + " " + cc + "\r\n" == "" + ip + rest;
    ScanTokenOf("", ip, rest);
    assert rest == " " + cc + "\r\n";
    ScanTokenOf(" ", cc, "\r\n");
  }

  /** The reply with the aliases of slots `0 .. i - 1` substituted in turn,
      each into the result of the previous one (ip.c:236-242). */
  function ApplyAliases(text: string, table: seq<Option<IpAlias>>, i: nat): string
    requires i <= |table| && forall j :: 0 <= j < i ==> table[j].Some?
  {
    if i == 0 then text
    else
      var e := table[i - 1].value;
      ReplaceAll(ApplyAliases(text, table, i - 1), e.ip, e.alias)
  }

  /** Aliases that name an address by itself leave the reply as it was. */
  lemma {:induction false} ApplyOwnNames(text: string, table: seq<Option<IpAlias>>, i: nat)
    requires i <= |table| && forall j :: 0 <= j < i ==> table[j].Some?
    requires forall j :: 0 <= j < i ==> table[j].value.alias == table[j].value.ip
    ensures ApplyAliases(text, table, i) == text
  {
    if i > 0 {
      var e := table[i - 1].value;
      var prev := ApplyAliases(text, table, i - 1);
      ApplyOwnNames(text, table, i - 1);
      ReplaceFromSelf(prev, e.ip, 0);
      assert prev[0..] == prev;
    }
  }

  /** Substitutions are applied in order: an alias that holds the address
      of a later entry is rewritten again by that entry. */
  lemma AliasesChain()
    ensures ApplyAliases("1.2.3.4(DE)", [Some(IpAlias("1.2.3.4", "hq")), Some(IpAlias("hq", "home"))], 2)
      == "home(DE)"
  {
    ReplaceAddress();
    ReplaceName();
  }

  /** The first entry turns the address into its alias. */
  lemma ReplaceAddress()
    ensures ReplaceAll("1.2.3.4(DE)", "1.2.3.4", "hq") == "hq(DE)"
  {
    var s0 := "1.2.3.4(DE)";
    assert MatchAt(s0, "1.2.3.4", 0);
    FirstMatchIs(s0, "1.2.3.4", 0);
    FindFromNone(s0, "1.2.3.4", 7);
  }

  /** The second entry rewrites the first one's alias again. */
  lemma ReplaceName()
    ensures ReplaceAll("hq(DE)", "hq", "home") == "home(DE)"
  {
    var s1 := "hq(DE)";
    assert MatchAt(s1, "hq", 0);
    FirstMatchIs(s1, "hq", 0);
    assert s1[2..] == "(DE)";
    forall j: nat | 2 <= j
      ensures !MatchAt(s1, "hq", j)
    {
      assert "hq"[0] == 'h';
      assert j < |s1| ==> s1[j] == s1[2..][j - 2] != 'h';
    }
    FindFromNone(s1, "hq", 2);
  }

  /** An alias applies wherever its address occurs as text, also inside a
      longer address: "1.2.3.4" is found in "11.2.3.45". */
  lemma AliasInsideLongerAddress()
    ensures ReplaceAll("DE(11.2.3.45)", "1.2.3.4", "hq") == "DE(1hq5)"
  {
    var s := "DE(11.2.3.45)";
    AddressFoundInside();
    FirstMatchIs(s, "1.2.3.4", 4);
    FindFromNone(s, "1.2.3.4", 11);
  }

  /** The first occurrence of "1.2.3.4" in "DE(11.2.3.45)" is at offset 4. */
  lemma AddressFoundInside()
    ensures MatchAt("DE(11.2.3.45)", "1.2.3.4", 4)
    ensures forall j: nat :: j < 4 ==> !MatchAt("DE(11.2.3.45)", "1.2.3.4", j)
  {
    var s := "DE(11.2.3.45)";
    assert s[4..11] == "1.2.3.4";
    forall j: nat | j < 4
      ensures !MatchAt(s, "1.2.3.4", j)
    {
      assert "1.2.3.4"[0] == '1' && "1.2.3.4"[1] == '.';
      assert s[j] != '1' || s[j + 1] != '.';
    }
  }

  /** How `leaked_ip` gets on before the reply is formatted: resolving
      ip-api.com, creating the socket or connecting fails, or the
      connection is made and the `write` calls give `writes` and the reply
      leaves `response` in `buf`. */
  datatype Outcome =
    | ResolveFailed
    | SocketFailed
    | ConnectFailed
    | Connected(writes: seq<WriteResult>, response: string)

  /** The inputs the code handles without undefined behaviour. */
  predicate OutcomeDefined(o: Outcome)
  {
    o.Connected? ==>
      Drives(o.writes, |Request|) &&
      (SendsAll(o.writes, |Request|) ==> WellFormedReply(o.response))
  }

  /** The probe gets through to a formatted reply. */
  predicate Succeeds(o: Outcome)
    requires OutcomeDefined(o)
  {
    o.Connected? && SendsAll(o.writes, |Request|) && Body(o.response).Some?
  }

  /** The state `leaked_ip` keeps in `static` variables across calls: the
      table `p_ipalias`, `ALIASES_LOADED` (how many slots `get_aliases`
      filled) and `ALIASES_ATTEMPTED`. */
  class LeakedIpProbe {
    const aliases: array<Option<IpAlias>>
    var loaded: nat
    var attempted: bool

    /** The slots counted as loaded hold entries, and loading happens only
        on an attempt. */
    ghost predicate Valid()
      reads this, aliases
    {
      aliases.Length == TableSize && loaded <= TableSize &&
      (forall j :: 0 <= j < loaded ==> aliases[j].Some?) &&
      (loaded > 0 ==> attempted)
    }

    /** The state at process start: static storage is zero, so nothing is
        loaded or attempted and every slot is empty. */
    constructor ()
      ensures Valid() && loaded == 0 && !attempted
      ensures fresh(aliases) && forall j :: 0 <= j < aliases.Length ==> aliases[j] == None
    {
      aliases := new Option<IpAlias>[TableSize](_ => None);
      loaded := 0;
      attempted := false;
    }

    /** One call of `leaked_ip()`. `file` is the alias file as it is when
        this call runs, None when it cannot be opened. Every failure returns
        `bad_addr` and leaves the state alone; on success the first call
        loads the aliases and later calls keep them, and the reply is
        formatted and has the loaded aliases substituted in order. */
    method Probe(outcome: Outcome, file: Option<string>) returns (r: string)
      requires Valid() && OutcomeDefined(outcome)
      requires !attempted && Succeeds(outcome) && file.Some? ==> AliasFileFits(file.value)
      modifies this, aliases
      ensures Valid()
      ensures !Succeeds(outcome) ==>
        r == BadAddr && loaded == old(loaded) && attempted == old(attempted) &&
        aliases[..] == old(aliases[..])
      ensures Succeeds(outcome) ==> attempted
      ensures Succeeds(outcome) && old(attempted) ==>
        loaded == old(loaded) && aliases[..] == old(aliases[..])
      ensures Succeeds(outcome) && !old(attempted) && file.None? ==>
        loaded == 0 && aliases[..] == old(aliases[..])
      ensures Succeeds(outcome) && !old(attempted) && file.Some? ==>
        loaded == ChunkCount(file.value) &&
        (forall j :: 0 <= j < loaded ==> aliases[j] == ParseChunk(Chunk(file.value, j))) &&
        (forall j :: loaded <= j < aliases.Length ==> aliases[j] == old(aliases[j]))
      ensures Succeeds(outcome) ==>
        r == ApplyAliases(FormatBody(Body(outcome.response).value), aliases[..], loaded)
    {
      if !outcome.Connected? {
        return BadAddr;
      }
      var ok, _ := SendRequest(outcome.writes);
      if !ok {
        return BadAddr;
      }
      var buf := ParseReply(outcome.response);
      if buf.None? {
        return BadAddr;
      }
      Remember(file);
      r := Substitute(buf.value);
    }

    /** ip.c:228-233: the first call that gets this far loads the aliases,
        unless some are loaded already; every such call marks the load as
        attempted. */
    method Remember(file: Option<string>)
      requires Valid()
      requires !attempted && file.Some? ==> AliasFileFits(file.value)
      modifies this, aliases
      ensures Valid() && attempted
      ensures old(attempted) ==> loaded == old(loaded) && aliases[..] == old(aliases[..])
      ensures !old(attempted) && file.None? ==> loaded == 0 && aliases[..] == old(aliases[..])
      ensures !old(attempted) && file.Some? ==>
        loaded == ChunkCount(file.value) &&
        (forall j :: 0 <= j < loaded ==> aliases[j] == ParseChunk(Chunk(file.value, j))) &&
        (forall j :: loaded <= j < aliases.Length ==> aliases[j] == old(aliases[j]))
    {
      if loaded == 0 && !attempted {
        loaded := LoadAliases(file);
        attempted := true;
      } else {
        attempted := true;
      }
    }

    /** ip.c:234-243: the aliases of the loaded slots, substituted into the
        text one after the other with `str_replace`. */
    method Substitute(text: string) returns (r: string)
      requires Valid()
      ensures r == ApplyAliases(text, aliases[..], loaded)
      ensures loaded == 0 ==> r == text
    {
      r := text;
      var i := 0;
      while i < loaded
        invariant i <= loaded
        invariant r == ApplyAliases(text, aliases[..], i)
      {
        var e := aliases[i].value;
        var replaced := StrReplace.StrReplace(Some(r), Some(e.ip), Some(e.alias));
        r := replaced.value;
        i := i + 1;
      }
    }

    /** `ALIASES_LOADED = get_aliases(p_ipalias)`: every entry `get_aliases`
        stores exists, as the file fits. */
    method LoadAliases(file: Option<string>) returns (n: nat)
      requires aliases.Length == TableSize
      requires file.Some? ==> AliasFileFits(file.value)
      modifies aliases
      ensures n <= TableSize && forall j :: 0 <= j < n ==> aliases[j].Some?
      ensures file.None? ==> n == 0
      ensures file.Some? ==> n == ChunkCount(file.value)
      ensures file.Some? ==> forall j :: 0 <= j < n ==> aliases[j] == ParseChunk(Chunk(file.value, j))
      ensures forall j :: n <= j < aliases.Length ==> aliases[j] == old(aliases[j])
    {
      n := GetAliases(aliases, file);
      if file.Some? {
        forall j | 0 <= j < n
          ensures aliases[j].Some?
        {
          assert ChunkFits(file.value, j);
        }
      }
    }
  }
}
