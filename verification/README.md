# Facows, verified

Facows is a small static-file HTTPS server: two listening sockets, one epoll loop, a child process that serves and a
parent that writes logs and bans addresses.  It is written in C over raw buffers, cursors and remaining-byte counts.
This project models its decision-making code in Dafny 4.11 and proves what that code promises.

`dafny verify dfyconfig.toml` checks everything.

## Layout

| file | models |
|---|---|
| `Bytes.dfy` | byte strings, `memchr`, C strings, decimal printing, `memcpy` |
| `MimeTable.dfy` | the MIME table compiler, on any text, writing `mime[1024]` in place |
| `MimeSyntax.dfy` | concrete syntax of a MIME block; when a block compiles to its table |
| `MimeLookup.dfy` | the lookup loops over the compiled table; compile, then look up |
| `ConfFile.dfy` | the configuration scanner and its value parsers |
| `ConfText.dfy` | writing a configuration and scanning it back |
| `ConfiguredMime.dfy` | configuration file, MIME compiler and lookup together |
| `PercentCode.dfy` | percent-decoding |
| `CleanUrl.dfy`, `Redirects.dfy` | clean-URL redirects, file choice, `file_parse`, and their theorems |
| `HostName.dfy` | subdomains, rebuilt hosts, whole redirect chains |
| `WebRoot.dfy` | the web root of a request, and when it contains what is served |
| `RequestHead.dfy` | request line and header loop of port 443 |
| `PlainHttp.dfy` | the parser of port 80 and its agreement with port 443 |
| `Conditional.dfy` | entity tags and the two 304 decisions |
| `RateLimiter.dfy`, `LimiterRuns.dfy` | the slot table with u16 counters, and whole runs of it |
| `TlsRead.dfy` | request framing over a script of TLS answers |
| `Connection.dfy` | one HTTPS connection: handshake, read, dispatch, write, resumed file transfer |
| `Dispatch.dfy` | the dispatch of one request: file choice, limiter, entity tag, reply |
| `Site.dfy` | everything together, from the bytes of a request to the bytes of its response |
| `Server.dfy` | the process: many connections, one limiter table, readiness events and timer resets in any order |
| `PipeMessages.dfy` | the message framing between child and parent |

C code that works in place is a method over arrays or class fields, proved against a function of its inputs; the
theorems are lemmas about those functions.  The connection is proved directly: its methods keep an invariant over the
bytes sent and received, for every script of TLS answers.

## Environment

TLS is a script of answers, one per call: data, "want read", "want write" or a failure.  A write is accepted whole or
not at all (no partial-write mode is set), and after a failure every later call fails.  A path may lead to a regular
file, to a directory, or to something that cannot be opened; `read` on a directory fails.  Files keep their content
while they are sent and are smaller than 2^31 bytes, and `stat` and `fstat` report the same size, a 63-bit number.
`stat`, `realpath`, `fstat`, `open` and `read` are maps.  Client addresses are not the all-zero address.  A search that
would run past the end of a buffer, or of the request in it, finds nothing.  The 404 page and the 429 page differ, where
requests are counted by their replies.

## Where the code does not do what it is meant to

Each of these is a lemma with a concrete input or a family of them, next to the exact condition under which the code
is right.

* The MIME compiler does not count the closing quote of a type, so after `k` entries its window reaches `k` bytes from
  the closing brace on.  A quote there breaks the table (`CompileIff`); sixteen types with `MIME_DEFAULT` on the next line
  are enough (`SixteenTypesBreak`, `DriftExample`).
* A directory asked for without its slash is announced with the size `stat` reports, and nothing follows
  (`DirectoryAnnounced`; the exact condition is `AnnouncedLength`, and `PlainRequestFramed` for a client without a tag).
* The test that a served file lies under the web root compares no separator, so a sibling whose name starts with the
  root's is served (`SiblingServed`, `UnrootedSiblingServed`, `ContainedIff`).
* A header line longer than the windows of the header loop, or a second `Host`, `User-Agent` or `Accept-Language`, ends
  the loop, and what follows it is not read (`CompleteIff`).
* A double extension is cut twice by redirects, and the file it named is lost (`DoubleExtensionLosesFile`; `ChainKeepsIff`
  says for every path whether the chain of its redirects keeps the file, and `TwoHopsKeepIff` that two do so only behind
  a decoded NUL).
* A redirect can change the web root, when the domain is a prefix of its own rebuilt name (`OverlapChangesRoot`,
  `RedirectKeepsRoot`), and then the file is lost (`WholeChainKeepsIff`).
* A path without a slash in front is moved to a `Location` that names another host (`UnrootedLeavesHost`, `LocationIff`).
* The port-80 parser compares the domain with the host as sent, the port-443 parser with the lowered one
  (`CapitalHostDisagrees`, `ExtractorsAgreeIff`).
* Several `If-None-Match` headers can make the two 304 decisions disagree (`TwoTagsDisagree`, `DecisionsAgreeIff`, and
  `BodyIffLength` in terms of lengths), and so does a file that cannot be opened (`UnopenedDisagreeIff`).
* An entity tag that fills its 31 characters is shared with a file ten times the size, and a longer one is cut and shared
  too (`EarlyFilesCollide`, `FullTagsCollide`, `CutTagsCollide`); `IdentifiesIff` says which tags identify their file.
* A stream of 8191 bytes or more with a terminator in its first 8190 is accepted or dropped depending on where it is cut
  (`LongStreamDependsOnChunking`); all other streams are seen alike however they are cut (`CutsAlikeIff`).
* What stands behind the first head in a read is discarded: two requests in one read are handed over once
  (`PipelinedPair`, `HandedIffAligned`).

## Model

| member | source | states |
|---|---|---|
| MimeTable.TypeMimeParse | src/file_conf.c:327-493 | for every text, well-formed or not, the compiler ends, every byte it writes and the NUL stay inside `mime[1024]`, nothing behind the last written byte changes, and the table and return code are those of the cursor walk |
| MimeTable.BraceFirst | src/file_conf.c:333-341 | a value that does not start with the opening brace is refused, whatever it holds |
| MimeTable.PutEntries | src/file_conf.c:369-490 | the outer loop writes what the walk says although its count drifts by one byte per entry |
| MimeTable.PutExts | src/file_conf.c:436-489 | the inner loop writes what the walk says, also when quoted extensions hold commas |
| MimeTable.EntriesWalk | src/file_conf.c:369-490 | the output never outgrows the initial window: each round consumes more input than it writes, which absorbs the drift |
| MimeTable.ExtsWalk | src/file_conf.c:436-485 | an extension list writes no more than the bytes from its first quote to its end |
| MimeTable.NextQuote | src/file_conf.c:460-484 | restarting at a comma inside a quoted string cannot go back before that string's closing quote |
| MimeSyntax.ExtsCorrect | src/file_conf.c:436-485 | any layout of an extension list compiles to its names joined by commas |
| MimeSyntax.EntriesReach | src/file_conf.c:369-490 | after all entries the walk has emitted the compact table and its window ends one byte too far per entry |
| MimeSyntax.CompileIff | src/file_conf.c:333-492 | a well-formed block compiles to its compact table if and only if at most 1022 bytes stand between its braces and no quote stands in the drifted window |
| MimeSyntax.SixteenTypesBreak | src/file_conf.c:390-393 | with the default type on the line behind it, a block that fits compiles to its table exactly when it has at most fifteen types |
| MimeSyntax.DriftExample | src/file_conf.c:390-393 | sixteen types on sixteen lines followed by the default type do not compile to their table |
| MimeLookup.ExtensionOf | src/net_http.c:64-77 | the extension is the text behind the last dot, or the whole path if there is none |
| MimeLookup.LookupType | src/net_http.c:69-165 | the lookup loops answer what the scan of the compact string answers for the extension of the path |
| MimeLookup.LookupCompact | src/net_http.c:84-165 | scanning a compact table gives the type of the first entry listing the extension, else the default, and the same error on over-long names or types |
| MimeLookup.FirstMatchMeans | src/net_http.c:84-165 | the first entry in which the key, or in front of it a name too long for its buffer, comes up decides: its type if the key came first and the type fits, an error otherwise, and the default without such an entry |
| MimeLookup.CompileThenLookup | src/file_conf.c:327-493 | compile-then-query: every layout of a well-formed block with a clean window answers every extension by first match |
| MimeLookup.ConfiguredType | src/net_http.c:64-165 | the same, run on the array the compiler filled |
| ConfFile.ConfParse | src/file_conf.c:142-218 | cursor and count never part, each turn advances, the "no newline" failure is never reached, and the result is the fold over all lines |
| ConfFile.ProbeIsLineKey | src/file_conf.c:169-188 | the 16-byte key probe cannot match across a newline: it sees exactly the key of the line |
| ConfFile.ScanLine | src/file_conf.c:165-202 | one turn has exactly the effect of its line and leaves the cursor on that line |
| ConfFile.LastWins | src/file_conf.c:160-218 | the last line that sets a key decides its value, every line of a MIME block counting as a line of its own |
| ConfFile.UnsetKept | src/file_conf.c:160-218 | a key no line sets keeps its value |
| ConfFile.RefusedIff | src/file_conf.c:197-200 | the file is refused exactly when some line's value is |
| ConfText.NumbersRead | src/file_conf.c:220-235 | a printed number is accepted as a port exactly below 65536 and then read exactly; as a u32 it is read modulo 2^32 |
| ConfText.TextsRead | src/file_conf.c:268-286 | a quoted string is stored whole exactly when it leaves room for the NUL and one byte more, else refused |
| ConfText.StrtolReads | src/file_conf.c:220-235 | a number is the signed value of the digits behind any white space and one sign, 0 without digits, saturated at 64 bits |
| ConfText.FlagIff | src/file_conf.c:237-266 | a flag has a value exactly when one of the words stands there with a space or a newline behind it |
| ConfText.TextIff | src/file_conf.c:268-286 | a string has a value exactly when it stands there between two quotes and fits |
| ConfText.DocumentedKeys | src/file_conf.c:21-43 | every documented key accepts exactly what is meant for it: a port 16 bits, another number 32, a flag both words, a name or path up to 126 characters; and no key hides another |
| ConfText.WrittenConfRead | src/file_conf.c:142-286 | a configuration file written line by line from known keys and values, with comments, blank lines and unknown keys anywhere, is scanned to exactly those settings, replayed in order |
| ConfText.ReplayKeeps | src/file_conf.c:142-286 | when every value can be stored, each key ends up with the value of its last line |
| ConfText.RefusedIffTooLarge | src/file_conf.c:226-286 | a written file is refused exactly when it holds a port above 65535 or a string too long for its array |
| ConfiguredMime.MimeLineSets | src/file_conf.c:42 | a line with a well-formed MIME block sets the compact table |
| ConfiguredMime.BraceMissingRefuses | src/file_conf.c:338-341 | one MIME line whose value does not start with the brace has the whole file refused |
| ConfiguredMime.ConfiguredLookup | src/file_conf.c:142-218 | after scanning the whole file, looking up any extension gives the first entry of the last MIME block that lists it |
| PercentCode.RawPathBuild | src/file.c:196-263 | the buffer holds web root, slash, the decoded path and a NUL |
| PercentCode.DecodeEncoded | src/file.c:210-260 | decoding is a left inverse of every RFC 3986 section 2.1 encoder, with any escaped set containing the percent sign and either hex case |
| PercentCode.DecodedLength | src/file.c:210-260 | every escape, wherever it stands, is decoded and costs exactly two characters |
| PercentCode.UnchangedIff | src/file.c:216-247 | a string passes through unchanged exactly when it holds no complete escape; malformed and cut-off ones stay |
| PercentCode.DecodeSumIff | src/file.c:210-260 | decoding distributes over a split exactly when the split does not cut an escape |
| CleanUrl.File.UriPathBuild | src/file.c:96-140 | return code and in-place truncation are those of the redirect rule |
| CleanUrl.File.PathBuild | src/file.c:142-182 | code, size and the path left in the buffer are those of the file choice |
| CleanUrl.FileParse | src/file.c:30-94 | redirect, 404, failure or a served file with its resolved path and size, for every file system; `Redirects.ParseMoves`, `Redirects.ParseIff` and `Redirects.NoSlashFails` say which |
| Redirects.CleanIff | src/file.c:96-140 | a path with a slash is redirected exactly when its last segment is an index page or it ends in `.html` |
| Redirects.RedirectsEnd | src/file.c:96-140 | for every path with a slash, redirecting stops after at most a fifth of the length in hops, at a clean prefix on which nothing moves |
| Redirects.ParseMoves | src/file.c:53-56 | a path with a slash is answered with a redirect exactly when it is not clean, whatever the disk holds, and each time to a prefix shorter by at least five characters with the same normal form |
| Redirects.NoSlashFails | src/file.c:109-112 | a path without a slash fails |
| Redirects.ParseIff | src/file.c:58-94 | a clean path is served with a target and a size exactly when the file it stands for resolves to that target under the web root and has that size, and fails exactly when the resolved name is too long |
| Redirects.ChooseIff | src/file.c:142-182 | the chosen file is the index page of an existing directory, the entry itself, or, without one, the entry with its extension; and none exactly when there is no such file |
| Redirects.AskedIsCanonical | src/file.c:53-56 | a client that follows the redirects until it gets another answer ends at the normal form |
| Redirects.RawPathSuffix | src/file.c:142-171 | adding a literal suffix to the URL adds it to the string `stat` sees, unless a decoded NUL cut that short |
| Redirects.HtmlRedirectKeepsFile | src/file.c:128-137 | `s.html` moves to `s`, and `s` is answered with the file `s.html` names exactly when nothing exists at the extensionless path |
| Redirects.IndexRedirectKeepsFile | src/file.c:113-126 | `d/index` and `d/index.html` move to `d/`, which is answered with that index file exactly when it and the directory exist |
| Redirects.BareIndexKeepsFile | src/file.c:113-120 | `d/index` and the directory it moves to are answered alike exactly when `d/index` is no entry of its own |
| Redirects.ChainKeepsIff | src/file.c:53-182 | whole chains under one web root: the path a client ends at that follows the redirects of an existing file's full name stands for that file exactly when there was no hop, or one `.html` hop with nothing at the extensionless path, or one `index.html` hop with the directory present, or a decoded NUL in front of a path that is no directory |
| Redirects.TwoHopsKeepIff | src/file.c:96-182 | two or more redirects keep the file exactly behind a decoded NUL in front of a path that is no directory |
| Redirects.DoubleExtensionLosesFile | src/file.c:128-137 | a file reachable only as `/a.html.html` ends in a 404 |
| HostName.ExtractSubdomain | src/net_http.c:310-323 | the extraction loop returns `www` for the domain itself, else the label in front of the first dot within 64 bytes |
| HostName.SubdomainReads | src/net_http.c:310-323 | what stands in front of the first dot is the subdomain, unless the value starts with the domain |
| HostName.NoSubdomain | src/net_http.c:314-323 | without a dot among the first 64 bytes there is no subdomain |
| HostName.PathInFront | src/net_http.c:248-262 | the path of a URI is what stands in front of its first question mark, or all of it |
| HostName.NetHostBuild | src/net.c:45-70 | the buffer ends up holding the host of subdomain, domain and port as one C string, within its 512 bytes; `HostName.HostReads` says how a client reads it |
| HostName.HostReads | src/net.c:45-70 | a client of the built host connects to the configured port, 443 if none is named, under subdomain, dot, domain |
| HostName.HostRoundTrip | src/net_http.c:305-324 | a rebuilt host parses back to its lower-case subdomain, or to `www` exactly when the domain is a prefix of its own rebuilt name |
| HostName.HostIdempotent | src/net.c:45-70 | `www` is a fixed point and parsing a rebuilt host twice is parsing it once |
| HostName.ExtractorsAgreeIff | src/net_80.c:125-140 | the two extractors return the same subdomain up to case exactly when the domain comparison comes out the same before and after lowering, or cannot matter |
| HostName.CapitalHostDisagrees | src/net_80.c:125-140 | `Example.com` is subdomain `Example` on port 80 and `www` on port 443 |
| HostName.LocationIff | src/net_http.c:176-184 | the `Location` of a redirect names the host and the path that were meant exactly when the path has its slash in front |
| HostName.UnrootedLeavesHost | src/net_http.c:176-184 | `x/index.html` is moved to the host `www.example.comx` |
| HostName.ChainEnds | src/net_http.c:170-188 | for a path with its slash in front, every redirect chain has at most one hop to HTTPS plus a fifth of the URI length |
| HostName.ChainStopsIff | src/fws.c:670-675 | a client with such a path is left alone exactly on HTTPS at a clean path |
| HostName.HostSettles | src/net_http.c:170-188 | whatever the first host, after one HTTPS redirect the next one keeps the host or makes it the `www` host, and from then on it never changes |
| WebRoot.RedirectKeepsRoot | src/fws.c:654-668 | the request after a path redirect is served from the same web root exactly when the subdomain is `www` or the domain is no prefix of its own rebuilt name |
| WebRoot.OverlapChangesRoot | src/fws.c:654-668 | subdomain `a` of domain `a.a` is moved to the web root of `www` |
| WebRoot.WholeChainKeepsIff | src/fws.c:654-675 | whole chains with the host rebuilt and reparsed at every hop: a client that starts with a slash in front and follows every redirect of `file_parse`, each time at the host it was sent to, ends at a path that stands for its file exactly when the chain keeps it under one root and the root stays the same |
| WebRoot.ContainedIff | src/file.c:68-87 | everything served lies inside the web root, for every path a request line can carry, exactly when no path string below the root leads to the root itself or to an entry beside it whose name starts with the root's |
| WebRoot.SiblingServed | src/file.c:83-87 | `/w2/s` is served for the root `/w` and the path `/../w2/s` |
| WebRoot.UnrootedSiblingServed | src/file.c:109-112 | and for the path `../w2/s`, which has no slash in front |
| RequestHead.LineParse | src/net_http.c:208-246 | fields in front of a failure are kept, the others stay empty |
| RequestHead.LineRoundTrip | src/net_http.c:208-246 | a request line of any size reads back as written, up to the first field that is too long |
| RequestHead.HttpReq.HeaderParse | src/net_http.c:264-461 | the loop over the buffer fills subdomain and tag as the walk says, with its eight-byte key comparison and early exits |
| RequestHead.WalkIsFold | src/net_http.c:280-458 | walking any layout of written headers, of any length, is folding over them up to the empty line |
| RequestHead.RequestRead | src/net_http.c:264-461 | the same for a whole request head; behind a request line of 1024 characters or more nothing is read |
| RequestHead.CompleteIff | src/net_http.c:280-458 | a request head is read to its end exactly when every header line fits its windows and none repeats a `Host`, `User-Agent` or `Accept-Language` header that has set something |
| RequestHead.KeywordNames | src/net_http.c:268 | the five documented header names are taken for their keywords, other ordinary names for none |
| RequestHead.FoldEtag | src/net_http.c:426-447 | the tag buffer depends on the `If-None-Match` headers alone that stand in front of the first header that ends the loop, in order; and the loop is complete exactly when there is no such header |
| RequestHead.FoldHost | src/net_http.c:305-324 | the subdomain comes from the last `Host` header in front of the first header that ends the loop, and stays empty without one |
| RequestHead.EchoedRequest | src/net_http.c:480-513 | a request that echoes the tag as the only `If-None-Match` that is read, in any layout, gets 304 exactly when the file's tag is still the same, and for a tag that identifies its file exactly when time and size are unchanged |
| PlainHttp.ParsePlain | src/net_80.c:58-150 | the port-80 parser takes URI and subdomain as its scan says, or refuses |
| PlainHttp.PlainRead | src/net_80.c:58-150 | on a whole written request, of any line lengths, it takes the URI of the first line and the first `Host` header in any case, and refuses exactly when the first line or one in front of that header is too long |
| PlainHttp.ParsersAgree | src/net_80.c:102-142 | on the same request both parsers, if they get that far, look at the same host bytes, one before and one after lowering |
| Conditional.GetEtag | src/net_http.c:480-521 | the response buffer holds the zero-padded tag and 304 is returned exactly when it equals the request's as C strings |
| Conditional.ParseEtag | src/net_http.c:426-447 | a usable header overwrites the front of the buffer up to its NUL and leaves the rest, an unusable one changes nothing |
| Conditional.TagOfIff | src/net_http.c:426-447 | a value carries a tag exactly when that stands between two quotes at its beginning and has fewer than 32 characters |
| Conditional.TagInjective | src/net_http.c:505 | tags that were not cut identify modification time and size |
| Conditional.SharedBy | src/net_http.c:505 | a whole tag is shared at most with a file of the same time and at least ten times the size, and only if it fills its buffer |
| Conditional.IdentifiesIff | src/net_http.c:505 | a tag identifies its file among all files exactly when it has fewer than 31 characters, or 31 and ten times the size is out of bounds |
| Conditional.IdentifiesAllIff | src/net_http.c:505 | without a bound on sizes, exactly when it has fewer than 31 characters, or 31 and the size is 0 |
| Conditional.UsualTagsFit | src/net_http.c:505 | times below 10^11 leave the tag of every file whole and its own |
| Conditional.FullTagsCollide | src/net_http.c:505 | a tag of 31 characters is that of a file ten times the size |
| Conditional.EarlyFilesCollide | src/net_http.c:505 | a file dated one second before 1970 keeps its tag when it grows from 10^9 to 10^10 bytes |
| Conditional.CutTagsCollide | src/net_http.c:505 | every tag of more than 31 characters is shared with another size |
| Conditional.BufferByte | src/net_http.c:426-447 | after any list of headers a byte of the tag buffer is not zero exactly when some tag put it there and no later tag was long enough to reach it |
| Conditional.DecisionsAgreeIff | src/net_443.c:236-241 | with the file open both 304 decisions agree unless the last usable header carries the file's tag and an earlier one left something behind it |
| Conditional.UnopenedDisagreeIff | src/net_443.c:236-241 | for a file that cannot be opened the builder fails, and the writer says 304 exactly when no tag byte was left in the request's buffer |
| Conditional.OneTagPadded | src/net_http.c:426-447 | at most one usable header leaves the request's tag zero-padded |
| Conditional.BodyIffLength | src/net_443.c:281-291 | in terms of lengths: a body follows exactly when a length was announced, unless the last usable tag is the file's and an earlier one is at least two characters longer than all later ones |
| Conditional.TwoTagsDisagree | src/net_443.c:236-241 | a tag followed by the matching one, two characters shorter, makes the builder say 304 and the writer 200 |
| Conditional.EchoRevalidates | src/net_http.c:505-511 | an echoed tag is answered with 304, by both decisions, exactly when the file's tag is still the same, and for a tag that identifies its file exactly when time and size are unchanged |
| RateLimiter.HitRefines | src/fws.c:714-748 | one step of the u16 counters is the closed form of the longer history: counts up to the first refusal, refusals modulo 65536, for all limits |
| RateLimiter.ServedThenRefused | src/fws.c:714-748 | within one window a client is served a run of requests within both limits and then only refused |
| RateLimiter.BanRule | src/fws.c:716-728 | the `j`-th refusal bans exactly when nft is on, `j >= 2` and `j` exceeds the ban limit, until the counter wraps |
| RateLimiter.RulingIff | src/fws.c:714-748 | for limits below 65535, a request is served exactly if the pages and resources of the window so far respect both limits; the first that does not is refused and the connection kept, every later one is refused and closed on |
| RateLimiter.VerdictCounts | src/fws.c:714-748 | counted verdict by verdict over a window, the served requests are exactly the admitted prefix and all others are refused |
| RateLimiter.ServedWithinLimits | src/fws.c:714-748 | within one window at most `lim_page` pages and `lim_res` resources are served, for limits below 65535 |
| RateLimiter.AdmittedSplits | src/fws.c:715 | a prefix of a history is over the limits exactly when it is longer than the admitted part |
| RateLimiter.Table.Locate | src/fws.c:695-712 | the search returns the client's slot, the first free one or the last, and claims a free one |
| RateLimiter.Table.Request | src/fws.c:695-748 | table and verdict after a request are those of the step on the found slot |
| RateLimiter.Table.Reset | src/fws.c:265 | the timer empties the whole table |
| LimiterRuns.RunRefines | src/fws.c:695-748 | after every run of requests and resets, occupied slots are the distinct clients in order of first appearance and hold the closed-form counters of their histories |
| LimiterRuns.SearchFindsSlot | src/fws.c:698-712 | the linear search finds the slot the abstract map assigns |
| LimiterRuns.TrackedExactly | src/fws.c:695-748 | slots 0 to 1022 count all requests of their own client and nothing else |
| LimiterRuns.SharedBucket | src/fws.c:695-748 | the last slot counts the combined requests of every client that is not among the first 1023 |
| LimiterRuns.NextRuling | src/fws.c:714-748 | after any run the next request is ruled by the client's own history, or by the combined one of all overflow clients |
| LimiterRuns.BansExactly | src/fws.c:716-728 | over whole runs a ban message is emitted exactly when nft is on and it is a tracked client's `j`-th refusal since the reset with `j >= 2` and `j` above the ban limit |
| LimiterRuns.ServedOverRun | src/fws.c:714-748 | counting a tracked client's served requests over the verdicts of a whole run is counting them over its own history |
| LimiterRuns.LimitsOverRun | src/fws.c:714-748 | between two resets a tracked client is served at most `lim_page` pages and `lim_res` resources, for limits below 65535 |
| TlsRead.FramingUniform | src/net_443.c:54-101 | for streams under 8191 bytes the parser gets a buffer exactly when there is a terminator, with the same head, however the bytes are split and however often the connection pauses |
| TlsRead.RequestOnce | src/net_443.c:87-100 | a stream that is one request is handed over whole and once |
| TlsRead.CallsShape | src/net_443.c:54-101 | while waiting, the buffer is everything read so far and holds no terminator |
| TlsRead.CloseLoses | src/net_443.c:66-91 | a failure or a close notify in front of a whole head ends the connection, whatever came before and comes after |
| TlsRead.CutsAlikeIff | src/net_443.c:54-101 | the streams the parser sees alike however they are cut and delayed are exactly those under 8191 bytes and those without a terminator in their first 8190 |
| TlsRead.Overrun | src/net_443.c:88-91 | a stream that overruns the buffer before any terminator is dropped, however it is cut |
| TlsRead.LongStreamDependsOnChunking | src/net_443.c:88-91 | a longer stream with an early terminator is accepted or dropped depending on where it is cut |
| TlsRead.HandedIffAligned | src/net_443.c:87-100 | a stream of whole requests is handed to the parser request by request exactly when no delivery holds the end of one together with the beginning of the next |
| TlsRead.PipelinedPair | src/net_443.c:93-99 | two requests in one read are handed over once, in two reads twice |
| Connection.DataCtx.Read | src/net_443.c:43-114 | entered only on a response boundary or a failed session; buffer, count and epoll interest afterwards, and no received byte outside the buffer handed over or kept |
| Connection.DataCtx.Write | src/net_443.c:116-167 | all or nothing, a paused write is repeated with the same bytes, and epoll waits for output exactly after "want write" |
| Connection.DataCtx.FileWrite | src/net_443.c:169-211 | the resume offset is exactly what was accepted; unless TLS fails, any other end means all there is to read was sent, which is nothing for a directory (0) or a path that cannot be opened (-1) |
| Connection.DataCtx.Transfer | src/net_443.c:178-204 | over any number of interruptions each byte of the file is delivered once and in order |
| Connection.DataCtx.WriteReply | src/fws.c:670-775 | what got through is a prefix of the response; a closing reply closes, and a close without pause or failure means all of a closing reply got through |
| Connection.DataCtx.Handshake | src/fws.c:578-613 | accepted, paused with the matching epoll interest, or failed |
| Connection.DataCtx.Run | src/fws.c:525-823 | one event keeps the connection invariant: sent bytes are a prefix of the complete responses in order, every received byte is in one dispatched buffer or pending, a kept context has met a pause, rests on a boundary or inside its file and has given no closing reply, a released one is released once and, unless TLS paused or failed, owes nothing and has given a closing reply or met the end of its input |
| Connection.DataCtx.NextRequest | src/fws.c:635-775 | the half of the loop up to the body keeps the invariant |
| Connection.DataCtx.SendBody | src/fws.c:776-783 | the body half ends on a boundary, inside the file with the flag set, or on a failed session |
| Connection.DataCtx.ServeRequests | src/fws.c:630-785 | the request loop keeps the invariant and ends |
| Connection.Serve | src/fws.c:269-276 | the invariant over whole connections, whose bytes in and out are those of the calls the script answered, for every script of TLS answers and every handler; a closing reply is the last and has closed the connection |
| Dispatch.HandleRequest | src/fws.c:670-784 | file choice, limiter and tag composed: table and reply as each part decides |
| Dispatch.ReplyKind | src/fws.c:670-784 | no reply without a slash, a redirect exactly for a path with one that is not clean, to where `file_parse` says, and otherwise the 429 page exactly if the limiter refuses, with the connection closed exactly if it says so, the 404 page for a missing file, and a 304 or the file for any other |
| Dispatch.AnnouncedLength | src/net_443.c:281-291 | for every path, file system and list of tags: what follows the header is exactly what it announced if and only if the size is 0, or a regular file without a longer earlier tag behind its own, or a directory whose tag was sent, or an unopenable path without a tag |
| Dispatch.PlainRequestFramed | src/net_443.c:189-204 | for a client that sends no tag, exactly when the path is no directory or has size 0 |
| Dispatch.DirectoryAnnounced | src/file.c:166-179 | `GET /images` on a directory announces 4096 bytes and sends none |
| Dispatch.ServedLabelled | src/net_http.c:51-165 | a regular file whose tag was not sent is answered with its whole content, its length, and the type of the first configured entry that lists its extension |
| Dispatch.ServedResponse | src/fws.c:757-784 | the complete response to a served path is the chosen header followed by the body of the 304 decision |
| Dispatch.ServedFile | src/file.c:68-87 | a served path is one `realpath` named, starts with the web root as a string, and a regular file there has the size `stat` reported |
| Site.LowerInPlace | src/net_http.c:32-34 | the lowering loop lowers the buffer in place up to its first NUL |
| Site.LoweredByte | src/net_http.c:32-34 | byte by byte: what stands in front of the first NUL is lowered and nothing else |
| Site.ReqParse | src/net_http.c:26-38 | path, web root, host and tag buffer are those worked out from the bytes of the request |
| Site.HandleBytes | src/fws.c:647-775 | one request from its bytes to its reply and the limiter table |
| Site.WrittenAsk | src/net_http.c:26-38 | a written request asks for the path of its line, the web root and host of the last `Host` header that is read, and the tag buffer of the `If-None-Match` headers that are read |
| Site.CarriedIff | src/net_http.c:208-262 | the paths requests ask for are exactly those below 4096 characters without a space, a question mark or a NUL |
| Site.WrittenRequestFramed | src/fws.c:647-785 | end to end: the response to a written request is header and body by the tags of its own that are read, and well framed exactly under the condition of `AnnouncedLength` |
| Site.WrittenRequestAnswered | src/fws.c:647-785 | byte for byte: a written request for a regular file whose tag it does not carry is answered with the file, labelled by first match |
| Server.ServeAll | src/fws.c:629-785 | any number of connections sharing one table, in any schedule of events and resets: the journal lists the turns of the schedule in order, a reset for the timer and the requests handed over for an event; every connection has the requests the journal names, taken from its own session, its replies are those ruled by the table after everything before them, what its session sent is a prefix of them, all of them on a boundary, a closing reply is its last, and every turn has used up some of its script |
| Server.RuledByHistory | src/fws.c:695-748 | in that traffic a request is ruled by its client's own requests since the last reset, over all its connections, or by the combined ones of the overflow clients |
| Server.LimitsKept | src/fws.c:695-784 | in that traffic, judged by the replies: between two resets an address gets at most `lim_page` pages or 404 pages and at most `lim_res` other files, on all its connections together |
| Server.RefusedIff | src/fws.c:714-748 | and nobody is refused before: a tracked client gets its own answer exactly as long as its requests since the reset respect both limits, the first beyond them gets the 429 page, every later one that page and the end of its connection |
| Server.TracelessIff | src/fws.c:670-712 | the requests that leave the limiter as it was are exactly those that are redirected or dropped |
| Server.EventRead | src/fws.c:629-785 | the requests one event adds to a connection, and their replies, are what the journal prescribes for them |
| PipeMessages.HandleRead | src/fws.c:412-433 | actions, count and unknown flag of the message loop for any buffer |
| PipeMessages.MessagesRoundTrip | src/fws.c:412-433 | any list of NUL-free messages in one read is handled in order up to the first unknown kind, and with none of those nothing is left over |
| PipeMessages.OrdersRoundTrip | src/fws.c:412-433 | what the child orders is done, all of it and in order: a message of kind 1 bans its address and one of kind 2 logs its line |
| PipeMessages.EndsAtZeroIff | src/fws.c:431-432 | on any bytes the count ends at 0 exactly when the last message was not torn, else at -1 |
| Bytes.DecimalInjective | src/net_http.c:505 | printed numbers identify the number |

## Left out

- OpenSSL, sockets, epoll, timers, fork, signals, privilege dropping, and process start-up (src/facows.c, `net_server_init`, `net_443_init`): answers are inputs of the model.
- nftables commands and interface discovery (src/net_nft.c): only "a ban message is emitted" is kept.
- The port-80 receive loop (src/net_80.c:31-56) and the accumulation of reads in the parent (src/fws.c:384-404): the model starts from a complete buffer.
- User-agent detection, the language tag and the origin value (src/net_http.c:326-424): modelled only as far as a second such header ends the header loop.
- `_type_ap_parse` (src/file_conf.c:288-325): a parameter of the scanner.
- Response texts, error page, dates, HSTS and origin headers, log lines: opaque byte strings; an error page that cannot be read is the reply that writes nothing.
- Copies into fixed buffers that the code does not check (`mime_default` into `content`, the path into `file_path` and `path_buf`, a long language tag): the model assumes they fit, by a length precondition where there is a buffer.
- Reads past the end of a buffer, or of the request in it: modelled as finding nothing.
- Files of 2^31 bytes or more, whose resume offset does not fit `file_len`.
- PercentCode.RawPathBuild: requires that root and path fit the 4096 bytes of `path_buf`, which the code assumes without a check.
- The page test on paths shorter than five bytes (src/fws.c:688): the code looks in front of the path; the model takes such a path for no page.
- RateLimiter.Table.Request: an address is a number instead of 16 bytes.
- LimiterRuns.RunRefines: requires non-zero client addresses, because a zero address is what marks a free slot.
- Connection.DataCtx.Run: the handler is an arbitrary function of the earlier requests and the bytes of this one; `Server.ServeAll` puts the dispatch and the shared limiter table in its place.
- RequestHead.HttpReq.HeaderParse: over-long `Accept-Language` and `Origin` values, which the code copies over the fields behind `lang` and `origin`, are not modelled as overwriting them.
- ConfText.WrittenConfRead: does not cover written MIME blocks, which `ConfiguredMime` has, nor `ALLOW_PORTS` lines.
- WebRoot.ContainedIff: ranges over paths of any length, where a request line carries 4095 characters.
- Server.ServeAll: all connections are accepted before the first event, and the table is passed on as a value; `Site.HandleBytes` updates it in place.
- Site.HandleBytes: requires that web root and path fit the 4096 bytes of `path_buf`, as PercentCode.RawPathBuild does.
