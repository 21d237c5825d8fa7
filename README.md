# slstatus `leaked_ip`: a Dafny model

This project models the "leaked IP" status component of slstatus
(`components/ip.c`). The component works in five steps:

1. It sends a fixed HTTP request to ip-api.com.
2. It takes the two whitespace-separated tokens of the reply body.
3. It formats them as `second(first)`.
4. On the first successful call, it reads up to ten `address:alias` lines from
   `~/.ip_alias`.
5. On every successful call, it rewrites each known address into its alias
   with `str_replace`.

Every failure returns `X.X.X.X(Unavailable)`.

The model has four modules:

- `CString` (cstring.dfy) holds the C string primitives the code relies on:
  - `strstr` is modelled as FirstMatch, the leftmost occurrence;
  - the `%s` conversion of `sscanf` is modelled as ScanToken;
  - a C string is its contents, with no NUL.
- `StrReplace` (str_replace.dfy) models `str_replace` as two imperative loops
  over a `char` array. They are proved against the recursive specification
  ReplaceAll. The module also gives an independent characterisation by
  leftmost splits: the result is the segments between the matches, joined with
  the replacement.
- `Aliases` (aliases.dfy) models `get_aliases`:
  - `fgets` reads chunks of at most 40 characters, through the 41-byte buffer;
  - `strtok` on `:` takes the address and the alias, and `strcspn` cuts the
    alias at its first `'\n'`;
  - the `while (fgets…)` loop fills the table array.

  A round-trip lemma reads back a file written from entries and gets the same
  entries, in order.
- `LeakedIp` (leaked_ip.dfy) models the rest of `leaked_ip`:
  - the write loop, with an oracle sequence of `write` results;
  - the body extraction and the formatting;
  - the `static` state of the probe (`p_ipalias`, `ALIASES_LOADED` and
    `ALIASES_ATTEMPTED`), as the class `LeakedIpProbe`, whose `Probe` method is
    one call of `leaked_ip()`.

The network and the file system are inputs to the model:

- An `Outcome` says which of resolution, socket creation or connection failed.
  When none failed, it gives the results of the `write` calls and the text the
  reply leaves in `buf`.
- The alias file is passed as its contents, or None when `fopen` fails.

Behaviour of the code worth knowing:

- **The formatted text is the second token, then `"("`, then the first token,
  then `")"`.** For the body `"1.2.3.4 US\r\n"` the code builds
  `"US(1.2.3.4)"` (FormatCountryFirst).
- **The alias file is split with `strtok`, not on the first colon.** Leading
  colons are skipped, and the alias ends at the next colon. A line longer than
  40 characters is read as several chunks, and each chunk becomes an entry.
- **The replaced address can occur again in the output.** Inserted text is
  never rescanned, so a replacement can complete a new occurrence
  (InsertedTextNotRescanned). An alias can also be rewritten again by a later
  entry (AliasesChain).
- **An alias applies inside a longer address.** For example, `1.2.3.4` applies
  inside `11.2.3.45` (AliasInsideLongerAddress).

## Model

| member | source | states |
|---|---|---|
| CString.FindFromLeftmost | components/ip.c:82 | `strstr` from an offset returns an occurrence and no earlier one at or after the offset; NULL means none at or after it |
| CString.FirstMatchLeftmost | components/ip.c:212 | `strstr(buf, "\r\n\r\n")` returns the leftmost occurrence, and NULL exactly when the pattern does not occur |
| CString.FirstMatchIs | components/ip.c:212 | an occurrence with none before it is what `strstr` returns |
| CString.ScanTokenSplits | components/ip.c:219-221 | a `%s` conversion fails exactly on blank input; otherwise the input is blank text, a whitespace-free non-empty token and a rest that starts with whitespace or is empty |
| CString.ScanTokenOf | components/ip.c:219-221 | blank text, a token and a rest that cannot continue the token scan back to exactly that token and rest |
| StrReplace.StrReplace | components/ip.c:57-105 | a NULL `orig` or `rep` returns `orig`; an empty `rep` returns `orig`; a NULL `with` acts as ""; otherwise the result is ReplaceAll of the three strings |
| StrReplace.CountReplacements | components/ip.c:80-84 | the counting loop counts the non-overlapping occurrences found left to right, resuming just past each match |
| StrReplace.CopyReplacing | components/ip.c:86-103 | the buffer allocated and filled by the copying loop and the final `strcpy` holds exactly ReplaceAll(orig, rep, with) |
| StrReplace.ReplaceFromLength | components/ip.c:86 | the result length is `strlen(orig) + (len_with - len_rep) * count`, the size `malloc` is asked for less the NUL |
| StrReplace.Split | components/ip.c:96-101 | the segments cut at the matches form a leftmost split: each segment but the last is followed by `rep`, with no occurrence of `rep` starting earlier, and the last segment holds none |
| StrReplace.ReplaceBySplit | components/ip.c:96-103 | for any leftmost split of the text, the result is its segments joined by `with`: the text between and after the matches is copied verbatim |
| StrReplace.CountBySplit | components/ip.c:82-84 | the count is one less than the number of segments of any leftmost split |
| StrReplace.JoinSplit | components/ip.c:96-103 | the segments joined back with `rep` give the original text |
| StrReplace.SplitSegmentsFree | components/ip.c:96-101 | no segment between the matches contains `rep` |
| StrReplace.ReplaceAllNoMatch | components/ip.c:82-103 | when `rep` does not occur, the output equals `orig` and the count is 0 |
| StrReplace.ReplaceFromSelf | components/ip.c:96-103 | replacing `rep` by itself gives the text back |
| StrReplace.InsertedTextNotRescanned | components/ip.c:97-101 | the inserted text is never rescanned: `str_replace("aab", "ab", "b")` gives "ab", which still contains "ab" |
| Aliases.FgetsLengthSpec | components/ip.c:39 | what `fgets` reads holds a '\n' only as its last character, and it stops short of 40 characters only after a '\n' or at the end of the file |
| Aliases.FgetsLine | components/ip.c:39 | a line of at most 40 characters, ending in its only '\n', is read by one call |
| Aliases.FgetsReadMatches | components/ip.c:39 | the characters `fgets` copies are the file text at the current offset |
| Aliases.ChunksTile | components/ip.c:39 | the chunks read by the loop follow each other, hold 1 to 40 characters each, and cover the file to its end |
| Aliases.Fgets | components/ip.c:39 | one `fgets` call before the end of the file copies the next chunk and moves the file offset past it |
| Aliases.StrTokSpec | components/ip.c:40-41 | `strtok` on ':' skips delimiters only, returns a token free of ':' that ends at a ':' (consumed) or at the end of the buffer, and returns NULL exactly when only delimiters remain |
| Aliases.StrcspnSpec | components/ip.c:42 | the alias is cut before its first '\n', and the text kept holds no '\n' |
| Aliases.GetAliases | components/ip.c:37-54 | a missing file returns 0 and stores nothing; otherwise slot `j` holds the entry parsed from the `j`-th `fgets` chunk, for every chunk read, and the count of chunks is returned; the other slots are unchanged |
| Aliases.ReadEntry | components/ip.c:39-46 | one pass of the loop stores the entry of the next chunk in slot `i` and leaves the other slots alone |
| Aliases.ParseLine | components/ip.c:40-42 | a line `ip:alias\n` of writable fields is parsed into exactly that address and alias |
| Aliases.FgetsReadsLine | components/ip.c:39 | such a line is read whole by one `fgets` call |
| Aliases.RenderParse | components/ip.c:37-50 | a file written from up to ten writable entries, one line each, is read back as the same entries in file order, and the file is one `get_aliases` handles |
| LeakedIp.SendRequest | components/ip.c:190-206 | the write loop succeeds exactly when the write results get every byte out; then the server has received the whole request, in order; otherwise it has received a proper prefix of it |
| LeakedIp.SendsAllPrefix | components/ip.c:192-206 | the loop ends normally exactly when some failure-free prefix of the write results reports all bytes written; with no failed call it always does |
| LeakedIp.Body | components/ip.c:212-218 | the body is the text 4 characters past the first "\r\n\r\n", and there is none exactly when "\r\n\r\n" does not occur |
| LeakedIp.ParseReply | components/ip.c:212-222 | the bad-response path is taken exactly when the reply holds no "\r\n\r\n"; otherwise the text built is the second token of the body, "(", the first token, ")" |
| LeakedIp.ReplyRoundTrip | components/ip.c:212-222 | a header, "\r\n\r\n", and a body of two tokens separated by whitespace give the second token followed by the first in parentheses |
| LeakedIp.FormatCountryFirst | components/ip.c:219-222 | the body "address country\r\n" is formatted as "country(address)" |
| LeakedIp.ApplyOwnNames | components/ip.c:235-243 | aliases that map an address to itself leave the formatted text as it was |
| LeakedIp.AliasesChain | components/ip.c:236-242 | substitutions are applied in slot order, each to the previous result, so an alias equal to a later address is rewritten again |
| LeakedIp.AliasInsideLongerAddress | components/ip.c:241 | substitution works on text, not on addresses: the alias `hq` of `1.2.3.4` turns "DE(11.2.3.45)" into "DE(1hq5)" |
| LeakedIp.LeakedIpProbe.constructor | components/ip.c:225-227 | the static state starts with nothing loaded, nothing attempted and every slot empty |
| LeakedIp.LeakedIpProbe.Probe | components/ip.c:153-246 | every failure (resolve, socket, connect, write, bad response) returns "X.X.X.X(Unavailable)" and leaves the state unchanged; the first success loads the alias file, later ones never reload it; on success the result is the formatted body with the loaded aliases substituted in slot order |
| LeakedIp.LeakedIpProbe.Remember | components/ip.c:228-233 | the load happens only when nothing is loaded and nothing was attempted, and `attempted` is set afterwards in every case; the file is constrained only when it is read |
| LeakedIp.LeakedIpProbe.Substitute | components/ip.c:234-243 | the result is the text with every loaded alias applied, in slot order, each to the previous result; with nothing loaded it is the text unchanged |
| LeakedIp.LeakedIpProbe.LoadAliases | components/ip.c:229 | `ALIASES_LOADED = get_aliases(p_ipalias)`: the slots counted are filled from the file in order, and the rest are untouched |

## Left out

- `ip`, `ipv4` and `ipv6` (components/ip.c:107-151) are not modelled. They are a thin wrapper over `getifaddrs`/`getnameinfo`.
- DNS resolution, `socket`, `connect`, `write`, `read` and `close` are not modelled: the `Outcome` input stands for their results. Blocking, timeouts and the release of resources are not modelled either.
- The return value of `read` (components/ip.c:210) is ignored by the code. The model takes the text `buf` holds afterwards as an input. The code writes no terminator, so what `buf` holds past the bytes read is not modelled.
- The construction of the alias file path with `strcat` on the `getenv("HOME")` buffer (components/ip.c:29-33) is not modelled. That call also modifies the environment string. The file is an input: its contents, or None when `fopen` fails.
- `malloc` failure is not modelled: neither the unchecked `malloc` at components/ip.c:43, where a NULL would make the `strcpy` at :44 crash, nor the failure branch at :88-89. Nor is the leak of each `str_replace` result.
- `warn` logging and `buf`, with its size, come through `../util.h` (components/ip.c:19), which is not part of this model. A result longer than `buf` is not modelled.
- Undefined behaviour in the code appears as preconditions, not as modelled behaviour:
  - an alias file chunk without two `strtok` tokens, which gives a NULL `alias` at components/ip.c:41-42;
  - an address longer than 15 characters or an alias longer than 13, which overflows the fields (components/ip.c:44-45, 239-240);
  - more than ten chunks, which overflows `p_ipalias[10]`;
  - a body with a header end but fewer than two tokens;
  - a NUL inside the file or the reply.

  These are stated as AliasFileFits and WellFormedReply. Each is required
  only where the code reads the input. The alias file must fit only on a call
  that succeeds before any load was attempted. The reply must be well formed
  only when the whole request was sent.
- `sscanf` (components/ip.c:219-221) writes into `buf` while reading the body, which lies in `buf` too. The model assumes the header is long enough for the writes not to reach the body.
- `strcpy(buf, str_replace(buf, …))` with an empty address would copy `buf` onto itself. `strtok` never yields an empty token, so this cannot happen here.
- Integer widths are not modelled: every length in the model is far below `int` range.
