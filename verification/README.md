# xio_uri_to_ss: a Dafny model of the Accelio kernel URI resolver

Accelio's kernel transport turns a connection URI such as
`rdma://192.168.1.5:7174` or `rdma://[fe80::1]:1234/resource` into a socket
address with `xio_uri_to_ss` (src/kernel/xio/xio_kernel_utils.c, lines
89-199) and its helper `priv_parse_ip_addr` (lines 51-81). This project
models both as pure functions over the URI's characters and proves what they
do.

The function has three stages, and each has a module:

- `Tokenizer` covers lines 101-161. It locates `://`, then splits the rest
  into a host and a port. The host is either bracketed, as in
  `[host]:port[/resource]`, or bare, as in `host:port[/resource]`. The bare
  form is found by two backward walks: one for the resource slash and one for
  the port colon. Both walks are also written as loops (`ScanResource`,
  `ScanColon`) and proved equal to the search functions the model uses.
  - The copies into the fixed buffers `host[1025]` and `port[32]` are
    modelled as substrings.
  - Some copies are undefined behaviour in C: a copy whose length is
    negative, or one that does not fit its buffer. The model does not give
    these a result. It reports them as a `Hazard`, and `UriToSs` yields
    `Undefined(hazard)`.
  - Outside those cases, the scan's result records the host, the port, the
    bracket hint and the value `len` still holds at line 192.
- `Resolver` covers lines 166-198 and 51-81:
  - the port must be a decimal numeral of at most 65535 and is stored in
    network order;
  - a host that is empty or starts with `*` is the wildcard of the family the
    brackets chose;
  - otherwise `priv_parse_ip_addr` looks for `.` and then `:` among the first
    `len` characters and parses an IPv4 or IPv6 literal, which must be
    consumed whole.
- `NetAddr`, `Ipv4Text`, `Ipv6Text`, `Numerals` and `Text` supply the parts
  the C code takes from the kernel:
  - the endpoint datatype, `htons` and `ntohs`;
  - the dotted-quad grammar, with a printer of the shortest dotted quad
    and a round-trip proof;
  - the IPv6 text forms of section 2.2 of RFC 4291: the full form, the
    compressed form with `::` standing for any run of zero groups, and the
    mixed form ending in a dotted quad. Each form has a printer and a
    round-trip proof for every address. The compressed printer takes the
    run to compress as an argument, so it is not the shortest
    text of section 4 of RFC 5952;
  - decimal and hexadecimal numerals;
  - reference definitions of `strstr`, `strchr`, `strrchr` and `strnchr`.

`Uris` builds URIs from their parts (scheme, host, port, resource) and proves
what the as-written function makes of each shape, end to end. `Intended`
corrects the defects listed under "## Findings", proves the intended
behaviour, and proves that the correction agrees with the original wherever
the original is defined and unaffected. `Samples` resolves a few example
URIs of the model's own choosing, such as `scheme://192.168.1.5:7174`,
`scheme://*:5555` and `scheme://300.1.1.1:80`, one literal URI at a time.

Some of what the code does may not be what a reader of the function
expects. The model follows the code in each case:

- A successful call returns 0 for IPv6 as well as for IPv4. The helper's 1
  is only tested for being negative (line 192).
- Any host whose first character is `*` is a wildcard, not only the host
  `*` (line 177).
- Brackets only choose the wildcard's family. A bracketed dotted quad still
  resolves to IPv4.
- `rdma://[fe80::1]:1234/resource` is refused: see the Findings table.
- The fixed buffer capacities are not turned into preconditions. An
  overflowing copy is a reachable outcome, `Undefined(HostOverflow)` or
  `Undefined(PortOverflow)`. This way every input has a defined meaning in
  the model, and the lemmas say exactly which inputs reach it.

## Model

| member | source | states |
|---|---|---|
| Text.FindFrom | src/kernel/xio/xio_kernel_utils.c:102 | `strstr`: the result is the first occurrence at or after the start, and there is none exactly when no occurrence exists |
| Text.FindFromSuffix | src/kernel/xio/xio_kernel_utils.c:108 | searching the pointer suffix `start + 3`, as line 108 does, is searching the whole string from that offset |
| Text.IndexFrom | src/kernel/xio/xio_kernel_utils.c:116 | `strchr`: the first index at or after the start holding the character, or none when no later index holds it |
| Text.LastBefore | src/kernel/xio/xio_kernel_utils.c:137 | `strrchr` (and the bounded backward walk): the last index in a range holding the character, or none when none does |
| Tokenizer.Tokenize | src/kernel/xio/xio_kernel_utils.c:101-161 | a scanned host and port always fit their buffers; the port never holds `/`; a bare form's port holds no `:` and its `len` is the host length |
| Tokenizer.Bracketed | src/kernel/xio/xio_kernel_utils.c:106-123 | the bracketed scan yields tokens that fit the buffers, marked bracketed, with a slash-free port |
| Tokenizer.Plain | src/kernel/xio/xio_kernel_utils.c:124-161 | the bare scan yields tokens that fit the buffers, unbracketed, with `len` equal to the host length |
| Tokenizer.ScanResource | src/kernel/xio/xio_kernel_utils.c:125-134 | the backward walk leaves `p2` at the leftmost slash after `start + 3`, every later slash seen being overwritten; the exit at lines 132-133 is never taken |
| Tokenizer.ScanColon | src/kernel/xio/xio_kernel_utils.c:144-149 | the walk back from the slash stops at the nearest colon before it; it fails when it reaches the first character, which it never examines |
| Tokenizer.NoSeparatorIsMalformed | src/kernel/xio/xio_kernel_utils.c:102-104 | a URI without `://` is refused by the scan |
| Tokenizer.BracketedUnclosed | src/kernel/xio/xio_kernel_utils.c:108-110 | a bracketed host with no `]:` after the bracket is refused |
| Tokenizer.BracketedHost | src/kernel/xio/xio_kernel_utils.c:106-114 | the bracketed host is exactly the text between `[` and the first `]:`; an oversized host overflows; the form is never refused afterwards |
| Tokenizer.BracketedPortToEnd | src/kernel/xio/xio_kernel_utils.c:116-118 | with no slash after `]:` the port is the rest of the string and `len` is the host length; an oversized port overflows |
| Tokenizer.BracketedPortBeforeSlash | src/kernel/xio/xio_kernel_utils.c:119-123 | with a slash after `]:` the port ends one character before the slash and `len` becomes the port length; `]:/` gives a negative length |
| Tokenizer.PlainWithoutResource | src/kernel/xio/xio_kernel_utils.c:136-160 | with no slash after `://`, the port follows the last colon of the URI and the host lies between `://` and it; the scheme's colon being the last one is refused |
| Tokenizer.PlainWithResource | src/kernel/xio/xio_kernel_utils.c:141-160 | with a slash after `://`, the port lies between the nearest colon before the leftmost slash and that slash; the scheme's colon there gives a negative host length |
| Resolver.ParsePort | src/kernel/xio/xio_kernel_utils.c:166-175 | a port is accepted exactly when it is a non-empty decimal numeral of value at most 0xFFFF, and the stored bytes decode to that value |
| Resolver.ParsePortDecimal | src/kernel/xio/xio_kernel_utils.c:166-175 | every port number written in decimal is accepted and stored as its `htons` bytes |
| Resolver.ParsePortLeadingZero | src/kernel/xio/xio_kernel_utils.c:166 | leading zeros do not change the accepted port |
| Resolver.ParseIpAddr | src/kernel/xio/xio_kernel_utils.c:51-81 | the helper returns 0 exactly for an IPv4 result, 1 exactly for IPv6, else -1; IPv4 needs `len` to cover the whole host; the address is the literal's and the port is the one passed |
| Resolver.Resolve | src/kernel/xio/xio_kernel_utils.c:166-198 | the resolving stage returns 0 exactly when it yields an address, whose port is the parsed port, and a bracketed wildcard is IPv6 |
| Resolver.UriToSs | src/kernel/xio/xio_kernel_utils.c:89-199 | the function returns 0 or -1, 0 exactly with an address; it is undefined exactly when the scan reaches undefined behaviour; the address carries the scanned port |
| Resolver.NoSeparatorFails | src/kernel/xio/xio_kernel_utils.c:102-104 | a URI without `://` returns -1 |
| Resolver.BadPortFails | src/kernel/xio/xio_kernel_utils.c:166-173 | an empty, non-decimal or too large port returns -1 whatever the host |
| Resolver.WildcardResolves | src/kernel/xio/xio_kernel_utils.c:177-190 | an empty or `*` host gives the IPv6 unspecified address when bracketed, else `INADDR_ANY`, with the parsed port |
| Resolver.DotMeansIpv4Only | src/kernel/xio/xio_kernel_utils.c:56-66 | a dot in the window means the host is tried only as IPv4, succeeding exactly when the window covers a valid dotted quad, never falling back to IPv6 |
| Resolver.ColonMeansIpv6Only | src/kernel/xio/xio_kernel_utils.c:67-78 | with no dot but a colon in the window, the whole host is tried only as IPv6 and succeeds exactly when it is a valid literal |
| Resolver.NeitherFails | src/kernel/xio/xio_kernel_utils.c:80 | with neither a dot nor a colon in the window the helper returns -1 |
| Resolver.Ipv6ReturnsZero | src/kernel/xio/xio_kernel_utils.c:192-198 | when the helper returns 1 the function still returns 0, with an IPv6 address |
| NetAddr.Htons | src/kernel/xio/xio_kernel_utils.c:174-175 | the network-order bytes of a port decode back to the port |
| NetAddr.HtonsNtohs | src/kernel/xio/xio_kernel_utils.c:175 | decoding stored port bytes and encoding them again gives the same bytes |
| NetAddr.HtonsInjective | src/kernel/xio/xio_kernel_utils.c:175 | two ports are stored identically exactly when they are equal |
| Ipv4Text.Parse | src/kernel/xio/xio_kernel_utils.c:59-60 | an accepted IPv4 literal contains a dot and no colon |
| Ipv4Text.ParseFormat | src/kernel/xio/xio_kernel_utils.c:59-60 | parsing the canonical dotted quad of any address gives the address back |
| Ipv6Text.Parse | src/kernel/xio/xio_kernel_utils.c:70-71 | an accepted IPv6 literal contains a colon |
| Ipv6Text.ParseFormatFull | src/kernel/xio/xio_kernel_utils.c:70-71 | parsing the full text form of any eight groups gives back their sixteen bytes |
| Ipv6Text.ParseFormatCompressed | src/kernel/xio/xio_kernel_utils.c:70-71 | parsing the compressed text of any eight groups gives back their sixteen bytes, for every run of zero groups the `::` replaces, whatever its position and length |
| Ipv6Text.ParseFormatMixed | src/kernel/xio/xio_kernel_utils.c:70-71 | parsing six groups followed by the dotted quad of any IPv4 address gives the six groups' bytes, then the quad's four bytes as the last four |
| Uris.BracketedTokens | src/kernel/xio/xio_kernel_utils.c:106-118 | `scheme://[host]:port` yields the host, the whole port and the host length, or the overflow of whichever does not fit |
| Uris.BracketedResourceTokens | src/kernel/xio/xio_kernel_utils.c:106-123 | `scheme://[host]:port/res` yields the port without its last character and that shortened length as `len`, or a negative length for an empty port |
| Uris.PlainTokens | src/kernel/xio/xio_kernel_utils.c:136-160 | `scheme://host:port` with a bare host yields that host and port, the host possibly holding colons, or the overflow of whichever does not fit |
| Uris.PlainResourceTokens | src/kernel/xio/xio_kernel_utils.c:141-160 | `scheme://host:port/res` with a bare host yields that host and port; the resource is ignored |
| Uris.MissingPortTokens | src/kernel/xio/xio_kernel_utils.c:141-156 | `scheme://host/res` without a port copies `//host` as the port and reaches a negative host length; with an empty scheme it is refused |
| Uris.DecimalPort | src/kernel/xio/xio_kernel_utils.c:166-175 | the decimal numeral of a port number has one to five digits, none a delimiter, and is accepted as that port |
| Uris.Ipv4Host | src/kernel/xio/xio_kernel_utils.c:56-66 | the canonical dotted quad of an address is a host with a dot, no delimiter, and resolves to that address |
| Uris.Ipv6Host | src/kernel/xio/xio_kernel_utils.c:67-78 | the full IPv6 text of an address has a colon, no dot and no delimiter, and resolves to that address |
| Uris.PlainIpv4 | src/kernel/xio/xio_kernel_utils.c:124-198 | `scheme://a.b.c.d:port` resolves to that IPv4 address and port for every address and port |
| Uris.PlainIpv4Resource | src/kernel/xio/xio_kernel_utils.c:141-198 | `scheme://a.b.c.d:port/res` resolves to the same address and port, whatever the resource |
| Uris.PlainIpv6 | src/kernel/xio/xio_kernel_utils.c:136-198 | an unbracketed full IPv6 literal followed by `:port` resolves to that address and port |
| Uris.BracketedIpv6 | src/kernel/xio/xio_kernel_utils.c:106-198 | `scheme://[ipv6]:port` resolves to that IPv6 address and port for every address and port |
| Uris.BracketedIpv4 | src/kernel/xio/xio_kernel_utils.c:56-66 | a bracketed dotted quad resolves to IPv4, not IPv6 |
| Uris.PlainWildcard | src/kernel/xio/xio_kernel_utils.c:185-190 | an unbracketed empty or `*`-led host resolves to `INADDR_ANY` with the port |
| Uris.BracketedWildcard | src/kernel/xio/xio_kernel_utils.c:178-184 | a bracketed empty or `*`-led host resolves to the IPv6 unspecified address with the port |
| Uris.BracketedResourceDropsDigit | src/kernel/xio/xio_kernel_utils.c:120-122 | with a resource after a bracketed IPv6 host whose first group is 0, the address resolves with the port divided by ten |
| Uris.StaleLengthRefuses | src/kernel/xio/xio_kernel_utils.c:192 | `rdma://[fe80::1]:1234/resource` is refused, the stale `len` of 3 hiding the host's colons |
| Uris.UnresolvedFails | src/kernel/xio/xio_kernel_utils.c:192-195 | a host that is no wildcard and has neither dot nor colon in its window is refused |
| Uris.EmptyBracketedPortUndefined | src/kernel/xio/xio_kernel_utils.c:120-122 | `]:` directly followed by `/` copies a port of length -1 |
| Uris.MissingPortUndefined | src/kernel/xio/xio_kernel_utils.c:156 | a bare host with a resource and no port reaches undefined behaviour |
| Uris.LongPortUndefined | src/kernel/xio/xio_kernel_utils.c:140 | a port of 32 characters or more overruns the port buffer |
| Uris.LongHostUndefined | src/kernel/xio/xio_kernel_utils.c:159 | a host of 1025 characters or more overruns the host buffer |
| Intended.Bracketed | src/kernel/xio/xio_kernel_utils.c:106-123 | the corrected bracketed scan never reaches undefined behaviour, keeps `len` as the host length and yields a slash-free port |
| Intended.Tokenize | src/kernel/xio/xio_kernel_utils.c:101-161 | the corrected scan never reaches undefined behaviour and always hands over the host's own length |
| Intended.UriToSs | src/kernel/xio/xio_kernel_utils.c:89-199 | the corrected function always returns 0 or -1, 0 exactly with an address carrying the scanned port |
| Intended.AgreesOnPlain | src/kernel/xio/xio_kernel_utils.c:124-161 | the correction refuses what the original refuses, agrees exactly on every scanned bare-host URI, and refuses wherever the original overflows or goes negative on a bare host |
| Intended.BracketedAgrees | src/kernel/xio/xio_kernel_utils.c:106-118 | without a resource the corrected and the original bracketed forms agree |
| Intended.BracketedResourceTokens | src/kernel/xio/xio_kernel_utils.c:119-122 | corrected: `scheme://[host]:port/res` yields the whole port and the host length, or is refused when either does not fit |
| Intended.BracketedIpv6Resource | src/kernel/xio/xio_kernel_utils.c:119-122 | corrected: `scheme://[ipv6]:port/res` resolves to that address and port for every address and port |
| Intended.EmptyBracketedPortFails | src/kernel/xio/xio_kernel_utils.c:120 | corrected: `]:/` is refused |
| Intended.MissingPortFails | src/kernel/xio/xio_kernel_utils.c:156 | corrected: a bare host with a resource and no port is refused |
| Intended.LongFieldFails | src/kernel/xio/xio_kernel_utils.c:140-160 | corrected: a port or host too long for its buffer is refused |
| Intended.LinkLocalResolves | src/kernel/xio/xio_kernel_utils.c:192 | corrected: `rdma://[fe80::1]:1234/resource` resolves to `fe80::1`, port 1234 |
| Samples.Ipv4Sample | src/kernel/xio/xio_kernel_utils.c:89-199 | `scheme://192.168.1.5:7174` resolves to IPv4 192.168.1.5, port 7174 in network order, returning 0 |
| Samples.StarSample | src/kernel/xio/xio_kernel_utils.c:177-187 | `scheme://*:5555` resolves to the IPv4 any-address, port 5555 |
| Samples.EmptyHostSample | src/kernel/xio/xio_kernel_utils.c:177-187 | `scheme://:5555` resolves to the IPv4 any-address, port 5555 |
| Samples.NoSeparatorSample | src/kernel/xio/xio_kernel_utils.c:101-103 | `192.168.1.5:7174` has no `://` and is refused with -1 |
| Samples.LargePortSample | src/kernel/xio/xio_kernel_utils.c:170-173 | `scheme://host:70000` is refused: the port exceeds 0xFFFF |
| Samples.BadQuadSample | src/kernel/xio/xio_kernel_utils.c:55-66 | `scheme://300.1.1.1:80` is refused: the host has a dot, is no dotted quad, and is never tried as IPv6 |

## Left out

- `xio_get_nodeid` (lines 205-208) is a one-line call to the kernel's
  `cpu_to_node`, which is not part of this model.
- The `printk` at line 164 and the `ERROR_LOG` calls at lines 167, 171 and
  193 are logging with no effect on the result.
- `in4_pton`, `in6_pton` and `strict_strtoul` are not part of this model.
  They are replaced as follows:
  - `in4_pton` is a dotted quad of four decimal components, each at most
    255.
  - `in6_pton` is the text forms of section 2.2 of RFC 4291: eight groups,
    one `::`, or an embedded dotted quad. Zone identifiers are not included.
  - `strict_strtoul` accepts a non-empty string of decimal digits and reads
    its exact value.
  - Kernel corner cases of these helpers are not modelled. Examples are a
    trailing newline accepted by the conversion, and a numeral beyond the
    range of `unsigned long` wrapping.
- `in4_pton` is given `len` as the source length, and its end pointer must
  reach the terminator. This is modelled as "`len` covers the whole host and
  the host is a dotted quad". An end pointer left inside a longer host never
  points at a terminator.
- The memory layout of `sockaddr_storage`, the casts to `sockaddr_in` and
  `sockaddr_in6`, and whatever partial writes reach `ss` on failure paths are
  not modelled. The result is an `Endpoint` datatype or nothing.
- The scope and flow fields of `sockaddr_in6`: the code leaves them unset.
- A URI is the sequence of its characters before the terminator. Embedded
  NUL characters are not modelled.
- Writing past the fixed buffers is not modelled as memory. Any copy that
  would overrun `host` or `port`, or that would have a negative length, is
  the outcome `Undefined(hazard)`. It is not a precondition, so the lemmas
  name every input that reaches it.
- Numerals.ToDigits: only bases 10 and 16 are allowed, which are the bases
  the model prints in.

## Findings

| source | as written | input that shows it | evidently intended | confidence | as-written member | corrected member |
|---|---|---|---|---|---|---|
| src/kernel/xio/xio_kernel_utils.c:120 | the bracketed port before a slash has length `(p2-1)-(p1+2)`, one short | `rdma://[0:0:0:0:0:0:0:1]:1234/r` resolves with port 123 | the port runs up to the slash, length `p2-(p1+2)` | high, not executed | Uris.BracketedResourceDropsDigit | Intended.BracketedIpv6Resource |
| src/kernel/xio/xio_kernel_utils.c:192 | `len` still holds the bracketed port's length when the host is classified | `rdma://[fe80::1]:1234/resource` is refused: only `fe8` is searched for `.` or `:` | the host is classified over its own length | high, not executed | Uris.StaleLengthRefuses | Intended.LinkLocalResolves |
| src/kernel/xio/xio_kernel_utils.c:120-122 | `]:/` makes the port length -1, passed to `strncpy` as a huge `size_t` | `rdma://[::1]:/r` | an empty port is refused | high, not executed | Uris.EmptyBracketedPortUndefined | Intended.EmptyBracketedPortFails |
| src/kernel/xio/xio_kernel_utils.c:156 | with a resource but no port, the colon found is the scheme's, so `len = p1-(start+3)` is negative | `rdma://host/r` | a URI without a port is refused | high, not executed | Uris.MissingPortUndefined | Intended.MissingPortFails |
| src/kernel/xio/xio_kernel_utils.c:140 | the port and host copies at lines 113, 118, 140, 153 and 159 are unbounded | a bare host followed by a 32-character port | a field too long for its buffer is refused | high, not executed | Uris.LongPortUndefined | Intended.LongFieldFails |
