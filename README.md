# fetch_iplist: the text-processing core, in Dafny

`fetch_iplist` downloads plain-text lists of IP network prefixes and aggregates
them. It writes the result, one CIDR literal per line, to a destination file
through a temporary file, or to standard output when the destination is `-`.
This project models the part of `src/main.rs` that works on text, plus the
choice of where the temporary file goes:

- **Extractor** (`extractor.dfy`). `is_net_char`, `just_the_net` and
  `extract_nets` turn an arbitrary downloaded body into the networks written
  on its lines. Each line loses its leading whitespace and is cut at the first
  character that cannot occur in a CIDR literal. What is left is parsed, and
  lines that do not parse are dropped silently.
- **Serialiser** (`serialiser.dfy`). `write_nets` joins the networks' display
  strings with line feeds and adds one final line feed. It is modelled as the
  string it writes to its sink.
- **Round trip** (`round_trip.dfy`). Extracting what `write_nets` wrote gives
  back the same list.
- **Staging location** (`staging.dfy`). `main` picks where to create the
  temporary file: nowhere for `-`, only the `--tempdir` directory when one is
  given, and otherwise the destination's parent with the system temporary
  directory as fallback.
- **Rust `str` operations** (`text.dfy`). `char::is_whitespace`,
  `trim_start`, `split_once` with a character predicate, `lines` and `join`,
  as far as the code above uses them.
- **Unit tests** (`tests.dfy`). The tests at the end of `src/main.rs`, stated
  as lemmas.

The network type of the `ipnet` crate is a type parameter `N`. Its `FromStr`
is a parameter `parse: string -> Option<N>`, and its `Display` is a parameter
`show: N -> string`. A lemma that needs something of them states it as a
precondition. For example, the round trip requires that every shown network
parses back to itself and that the empty string does not parse. Whether a
temporary file can be created in a location is the parameter `creates`. The
destination's `Path::parent` is the parameter `parent`.

For an empty list, `write_nets` writes a single line feed: one empty line.
This is not a list with no lines. The model follows the code here, and
`ExtractWritten` shows that this output still reads back as the empty list.

## Model

| member | source | states |
|---|---|---|
| `Text.IsWhitespace` | src/main.rs:95 | defined as the characters with the Unicode White_Space property, which `char::is_whitespace` (and so `trim_start`) drops |
| `Text.TrimStart` | src/main.rs:95 | the result is the suffix of the line left after dropping a run of whitespace; every dropped character is whitespace and the result does not start with whitespace |
| `Text.SplitOnce` | src/main.rs:96-98 | `None` exactly when no character matches the pattern; otherwise the two halves are the text before and after the first matching character, and the first half has no match |
| `Text.SplitOnceAt` | src/main.rs:96-98 | splitting a text known to be `head + [c] + tail`, with `c` matching and nothing in `head` matching, gives exactly `(head, tail)` |
| `Text.StripCR` | src/main.rs:103 | the carriage-return removal of `lines`: at most one character is dropped, the result is a prefix of the line, and a character is dropped exactly when the line ends in a carriage return |
| `Text.Lines` | src/main.rs:103 | no line contains a line feed, and only the empty text has no lines |
| `Text.LinesOfUnterminated` | src/main.rs:103 | a non-empty text without a line feed is exactly one line, kept whole, a final carriage return included |
| `Text.LinesCons` | src/main.rs:103 | the first line ends at the first line feed and loses one carriage return just before it; the rest of the text gives the other lines. With `LinesOfUnterminated` and the empty text, this determines the lines of every text |
| `Text.LinesOfTerminated` | src/main.rs:103 | a text of complete lines (each ended by a line feed, none containing a line feed or ending in a carriage return) splits back into exactly those lines; a final line feed does not start an extra empty line |
| `Text.LinesOfTerminatedThen` | src/main.rs:103 | complete plain lines followed by a last line without a line feed give those lines and then that last line |
| `Text.LinesOfCrlfTerminated` | src/main.rs:103 | lines each ended by a carriage return and a line feed come back without the carriage return |
| `Text.Join` | src/main.rs:68 | defined as `join`: the strings in order with the separator between each two neighbours, nothing for an empty list |
| `Text.JoinThenNewline` | src/main.rs:64-69 | joining a non-empty list with line feeds and pushing one more line feed is the same as ending every string with its own line feed |
| `Extractor.IsNetChar` | src/main.rs:86-89 | defined as `is_net_char`: an ASCII hex digit (`IsAsciiHexDigit`, which is `char::is_ascii_hexdigit`: 0-9, a-f, A-F), '.', ':' or '/' |
| `Extractor.NetCharClass` | src/main.rs:86-89 | `is_net_char` holds for exactly the 25 characters 0-9, a-f, A-F, '.', ':' and '/'; no whitespace character is a net character |
| `Extractor.JustTheNet` | src/main.rs:91-99 | the result is a prefix of the line with its leading whitespace trimmed; all its characters are net characters; the cut is maximal, so either the whole trimmed line is kept or the next character is not a net character. The cut is at the first character matching `IsNotNetChar`, the closure `!is_net_char(c)` at src/main.rs:97 |
| `Extractor.JustTheNetUnique` | src/main.rs:91-99 | those three properties determine the result: any prefix of the trimmed line that has them equals `JustTheNet` |
| `Extractor.JustTheNetSplit` | src/main.rs:91-99 | a line made of whitespace, then net characters, then a rest that does not continue them is cut to exactly those net characters |
| `Extractor.JustTheNetOfNet` | src/main.rs:91-99 | a string of net characters is returned unchanged |
| `Extractor.JustTheNetIdempotent` | src/main.rs:91-99 | cutting a line twice gives the same result as cutting it once |
| `Extractor.JustTheNetOfNonNetLine` | src/main.rs:91-99 | a blank line, or one whose first non-blank character is not a net character (a `#` comment), is cut to the empty string |
| `Extractor.FilterMap` | src/main.rs:104 | `filter_map` never yields more values than it has inputs |
| `Extractor.FilterMapAppend` | src/main.rs:102-106 | extraction works line by line: the result for two blocks of lines is the result for the first block followed by the result for the second |
| `Extractor.FilterMapMembership` | src/main.rs:102-106 | a value is kept if and only if some input maps to it |
| `Extractor.FilterMapAllSome` | src/main.rs:102-106 | when every input maps to a value, all values are kept in input order, duplicates included |
| `Extractor.LineNet` | src/main.rs:104 | defined as the per-line closure of `filter_map`: `just_the_net` of the line, parsed, `None` when parsing fails |
| `Extractor.ExtractNets` | src/main.rs:101-106 | extraction is total (it never fails) and yields at most one network per line |
| `Extractor.ExtractNetsMembership` | src/main.rs:101-106 | a network is extracted if and only if some line of the body, cut by `just_the_net`, parses to it |
| `Extractor.ExtractNetsOfLines` | src/main.rs:101-106 | a body of complete plain lines, with or without an unterminated last line, gives the networks of exactly those lines, in order; the last line counts whether or not a line feed ends it |
| `Extractor.ExtractNetsUnterminatedNet` | src/main.rs:101-106 | a body that is a single network with no line feed after it gives that network |
| `Extractor.NonNetLineParsesToNothing` | src/main.rs:91-105 | if the empty string does not parse, a blank or comment line yields no network |
| `Extractor.NonNetLineContributesNothing` | src/main.rs:101-106 | if the empty string does not parse, a blank line or a comment line adds no network, wherever it stands |
| `Serialiser.ShowAll` | src/main.rs:64-67 | one display string per network, in order: the `i`-th is `show` of the `i`-th network |
| `Serialiser.WriteNets` | src/main.rs:62-72 | with no networks the output is exactly one line feed; otherwise it is each network's display string followed by a line feed, in input order |
| `RoundTrip.ExtractWritten` | src/main.rs:62-106 | if each network displays as net characters and parses back to itself, and the empty string does not parse, then extracting the written text gives back the same list, empty list included |
| `Tests.JustTheNetV4Bare` | src/main.rs:115 | `just_the_net("192.0.2.0/24")` is `"192.0.2.0/24"` |
| `Tests.JustTheNetV4Indented` | src/main.rs:116 | `just_the_net("    192.0.2.0/24")` is `"192.0.2.0/24"` |
| `Tests.JustTheNetV4Noted` | src/main.rs:117 | `just_the_net("    192.0.2.0/24 pelican")` is `"192.0.2.0/24"` |
| `Tests.JustTheNetV6Bare` | src/main.rs:118-121 | the bare IPv6 prefix is returned unchanged |
| `Tests.JustTheNetV6Indented` | src/main.rs:122-125 | the indented IPv6 prefix is returned without its indentation |
| `Tests.JustTheNetV6Noted` | src/main.rs:126-129 | the indented IPv6 prefix followed by a word gives the bare prefix |
| `Tests.JustTheNetNoNet` | src/main.rs:130 | `just_the_net("    pelican")` is the empty string |
| `Tests.ExtractTwoLines` | src/main.rs:135-143 | two lines, each holding a net that parses, give the two networks in order |
| `Tests.ExtractNetsPlain` | src/main.rs:135-143 | `"192.0.2.0/24\n2001:db8:1234:5678:90ab:cdef::/96\n"` gives the two parsed networks, in order |
| `Tests.ExtractNoisyLines` | src/main.rs:144-152 | an indented net, a blank line, a comment line and a net give just the two networks |
| `Tests.ExtractNetsNoisy` | src/main.rs:144-152 | the test's text with indentation, a blank line and `# comment` gives the two networks, in order |
| `Tests.WriteNetsTwo` | src/main.rs:156-168 | writing the two test networks gives `"192.0.2.0/24\n2001:db8:1234:5678:90ab:cdef::/96\n"` |
| `Staging.NewIn` | src/main.rs:34-42 | defined as one creation attempt: the location is the only one tried, and the file is there exactly when creation in it succeeds |
| `Staging.ChooseStaging` | src/main.rs:27-45 | the destination `-` is standard output, and no temporary file is tried; a given `--tempdir` is the only location tried; otherwise the parent is tried first, and the system temporary directory is tried exactly when the parent failed; a staging file is always in the last location tried, where creation succeeded; failure means every tried location failed |
| `Staging.TryInOrder` | src/main.rs:33-45 | reference for "try in order, stop at the first success": the tried locations are a prefix of the candidates, every one before the last failed, and a file is obtained if and only if some candidate succeeds |
| `Staging.Candidates` | src/main.rs:33-43 | the locations `main` considers, in order: only the `--tempdir` directory when given; otherwise the parent and then the system temporary directory when there is a parent, and the system temporary directory alone when there is none |
| `Staging.ChooseStagingTriesInOrder` | src/main.rs:33-45 | for a file destination, `main`'s chain of `new_in`, `ok_or_else`, `and_then` and `or_else` is exactly "try the candidate locations in order": only the temporary directory when given, else the parent (if any) and then the system temporary directory |

## Left out

- Downloading (`download_nets`, src/main.rs:75-81): the HTTP requests and the collection of the response bodies are network I/O.
- Gathering the networks of all bodies (`flat_map` over `extract_nets`, src/main.rs:82): a pure step, left out because it only feeds `IpNet::aggregate`, which is left out too. It concatenates `ExtractNets` of each body. That is not `ExtractNets` of the concatenated bodies: a body without a final line feed would merge its last line with the next body's first line.
- Aggregation (`IpNet::aggregate`, src/main.rs:83): a call into the `ipnet` crate, whose source is not part of this model.
- Parsing and display of networks (`str::parse::<IpNet>`, `IpNet::to_string`): library code. Both are parameters, and each lemma states what it assumes of them.
- Command-line parsing with `clap` (src/main.rs:10-22): library glue. The model takes the parsed destination, temporary directory and parent directory as inputs.
- The standard-output branch of `main` (src/main.rs:29-30): it downloads and then calls `write_nets` on `stdout`. The model states only that this branch tries no temporary file (`ChooseStaging`) and what `write_nets` writes (`WriteNets`).
- The file I/O of `main` (src/main.rs:46, 52-56): creating the temporary file, printing its name, writing to it, `sync_all`, `persist` and the final `sync_all`. Only the choice of location is modelled, with the outcome of each creation attempt as an input. Cleaning up the temporary file on failure is `tempfile`'s `Drop`, which is not part of this model.
- Ownership and permission copying, symlink refusal and cross-device warnings: the code has only TODO comments for these (src/main.rs:48-51) and does not implement them, so they are not modelled.
- Paths that are not valid UTF-8: `to_str()` is `None` for them, so they never mean standard output. The model represents a destination as a string, so it cannot express such a path.
- `Path::parent`: its result is an input, not computed from the path.
- Bytes: `write_nets` writes the UTF-8 encoding of its string (`as_bytes`). The model stops at the string of characters. Errors from `write_all` and `flush` are I/O and are not modelled.
- `char::is_whitespace` is modelled as the fixed list of Unicode White_Space characters. Unicode versions are not modelled.
