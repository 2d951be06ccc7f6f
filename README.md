# Quickshare in Dafny

Quickshare (`quickshare.go`) is a small file-sharing utility. A server process keeps an
ordered list of *shares*. Each share binds a name to a local file and is served over HTTP.
A second invocation of the program acts as a client: it talks to the running server over
a local control socket, one line per command.

This project models the sequential logic underneath the sockets and proves properties of
it:

- **Share specifications** (`share.dfy`, module `Shares`).
  - `name:path` or a bare `path` becomes a share (`Share.apply`). The path is made absolute
    against a working directory, which the model takes as a parameter.
  - A share is formatted back into such a specification (`Share.ShareName`).
  - A share the client derives from its argument is parsed back by the server into the
    same share, provided its name is non-empty. An unnamed share, such as one from `:p` or
    `dir/`, comes back named after its path's last segment instead.
- **The registry** (`registry.dfy`, module `Registry`).
  - The ordered list of shares, as the functions `FindIndex`, `Lookup` and `Remove`.
  - The class `Registry`, whose methods run the Go loops of `getShare`, `ShareExists`,
    `RemoveShare` and the append of `add` on a `seq<Share>` field and are proved against
    those functions.
  - The invariant is that no two shares share a name (`Unique`).
- **The control protocol** (`control.dfy`, module `Control`).
  - One trimmed line is parsed (`Parse`) and executed against the registry (`Exec`). `Step`
    combines them.
  - `Session` runs the lines of one connection in order until `stop`.
  - `Handle` and `Serve` do the same work in place on a `Registry` object, and their
    contracts tie them to `Step` and `Session`.
- **HTTP routing** (`http.dfy`, module `Http`).
  - The request URI is reduced to a file name (`getHttpFilename`).
  - That name selects the index page, a share to download, or the 404 answer (`Resolve`).
  - The index page is rendered in a loop (`RenderIndex`). Lemmas say what the page contains.
- **The client's `add`** (`client.dfy`, module `Client`).
  - The line the client sends, the server's answer to it, and how the client classifies that
    answer.
  - The `--ls` request it sends (see Findings).
- **Go library pieces** (`text.dfy`, module `Text`): `strings.Index`, `strings.LastIndex`,
  `strings.HasPrefix`, `strings.TrimSpace` and `%d` formatting of a count.

A reply line is modelled without its trailing newline. Strings are sequences of characters.

## Model

| member | source | states |
|---|---|---|
| Text.HasPrefix | quickshare.go:194 | no contract of its own: strings.HasPrefix, the input starts with the prefix; Control.Parse and Client.Classify state their branches with it |
| Text.IndexOf | quickshare.go:51 | strings.Index with a one-character separator returns -1 or a position holding the separator, and no earlier position holds it |
| Text.LastIndexOf | quickshare.go:35 | strings.LastIndex returns -1 or a position holding the separator, and no later position holds it |
| Text.IndexOfAfterPrefix | quickshare.go:51 | in `a + [c] + b` with no `c` in `a`, the first `c` is at position `|a|` |
| Text.SpaceRunFrom | quickshare.go:189 | the scan from the left stops at the first non-whitespace character, and everything it passed is whitespace |
| Text.SpaceRunBefore | quickshare.go:189 | the scan from the right stops at a non-whitespace character or at its lower bound, and everything it passed is whitespace |
| Text.Trim | quickshare.go:189 | TrimSpace leaves no whitespace at either end, never lengthens the string, and leaves an already trimmed string unchanged |
| Text.TrimDropsOnlySpace | quickshare.go:189 | the trimmed line is a contiguous piece of the raw line, and everything cut off at either end is whitespace |
| Text.TrimIdempotent | quickshare.go:189 | trimming twice is trimming once |
| Text.Decimal | quickshare.go:150 | `%d` of a count is a non-empty string of digits with no leading zero |
| Text.DecimalRoundTrip | quickshare.go:150 | the digits written for a count read back as that count |
| Shares.GetFilename | quickshare.go:34-38 | the result has no '/', is a suffix of the path, and is either the whole path or preceded by a '/' |
| Shares.Abspath | quickshare.go:40-47 | "" stays "", a path starting with '/' is returned unchanged, and otherwise the result is cwd, a '/' only if cwd does not end in one, then the path; the result is empty or absolute |
| Shares.AbspathRelative | quickshare.go:40-47 | a relative path's result starts with cwd, ends with the path, has exactly one '/' between them, and has the corresponding length |
| Shares.AbspathIdempotent | quickshare.go:40-47 | making an absolute path absolute again, against any directory, changes nothing |
| Shares.Apply | quickshare.go:50-59 | without ':', name = last segment and filename = abspath of the whole spec; with ':', the name is the ':'-free text before the first ':' and the filename is abspath of the rest; the filename is empty or absolute |
| Shares.ShareName | quickshare.go:61-67 | no contract of its own; Shares.ApplyShareName, Shares.ApplyShareNameUnnamed and Shares.ClientSpecRoundTrip state what Apply reads back from it |
| Shares.ApplyShareName | quickshare.go:50-67 | a share with a non-empty ':'-free name and an absolute or empty path parses back from its ShareName unchanged, in any directory |
| Shares.ApplyShareNameUnnamed | quickshare.go:61-67 | an unnamed share is sent as its bare path and comes back named after the path's last segment |
| Shares.ClientSpecRoundTrip | quickshare.go:411-416 | the share the client derives from its argument is exactly what the server derives from the `ShareName` the client sends, whatever the server's directory, when the name is non-empty |
| Registry.FindIndex | quickshare.go:84-85 | -1 exactly when no share has the name, otherwise the position of the first share that has it |
| Registry.FirstIsUnique | quickshare.go:84-85 | there is only one first position of a name |
| Registry.Lookup | quickshare.go:83-89 | the first share with the name, or the sentinel with an empty name and path when there is none |
| Registry.LookupUnique | quickshare.go:83-89 | in a duplicate-free list, the share found is the one share with that name |
| Registry.Remove | quickshare.go:98-107 | without the name the list is unchanged; with it the list is one shorter, everything before the first match is kept, and everything after it moves down by one |
| Registry.RemovePreservesUnique | quickshare.go:98-107 | removal keeps a duplicate-free list duplicate-free and leaves no share of the removed name |
| Registry.RemoveKeepsOthers | quickshare.go:98-107 | removing one name does not change whether, or which, share another name finds |
| Registry.AppendPreservesUnique | quickshare.go:199-204 | appending a share whose name is new keeps the list duplicate-free |
| Registry.Registry.GetShare | quickshare.go:83-89 | the loop returns Lookup's share, and the result carries the name and is in the list exactly when some share has the name |
| Registry.Registry.ShareExists | quickshare.go:91-96 | true exactly when some share has the name |
| Registry.Registry.Append | quickshare.go:204 | the share goes at the end and nothing else changes; a new name keeps the registry valid |
| Registry.Registry.RemoveShare | quickshare.go:98-107 | returns whether the name was present, the list becomes Remove of the old list, and a valid registry stays valid with the name gone |
| Control.AddedReply | quickshare.go:205 | no contract of its own; Client.AddedRead states that the client reads it as success, and Control.StepAdd when it is sent |
| Control.ListLine | quickshare.go:218 | no contract of its own; Control.ListLines and Control.StepList state where each share's line appears |
| Control.ListLines | quickshare.go:217-219 | one `<name> <path>` line per share, in registry order |
| Control.Parse | quickshare.go:192-227 | each command is recognised exactly when the trimmed line is that word or has that prefix; `add` and `rm` carry the text after their prefix, and anything else is Unknown |
| Control.Exec | quickshare.go:192-227 | a command keeps the registry duplicate-free, stops exactly for `stop`, answers every command except an unknown one, and changes the registry only for `add` and `rm` |
| Control.Step | quickshare.go:189-227 | for a raw line: stop exactly when it trims to `stop`, no reply exactly when it is not a command, registry changed only by `add `/`rm ` lines, no duplicate introduced |
| Control.StepPing | quickshare.go:192-193 | `ping` answers `pong` and changes nothing |
| Control.StepAdd | quickshare.go:194-207 | `add <spec>`: a taken name gets `ERR Share exists already` and nothing changes; otherwise the share parsed from spec is appended and the reply is `OK Share "<name>"@'<path>'` |
| Control.StepRm | quickshare.go:208-215 | `rm <name>`: `OK` and the first share of that name removed, or `ERR Share not found` and nothing changes |
| Control.StepList | quickshare.go:216-220 | `ls`/`list`: one line per share in order, then `OK`; the registry is unchanged |
| Control.StepStop | quickshare.go:221-226 | `stop` answers `OK` and ends the server |
| Control.StepUnknown | quickshare.go:189-227 | any other line gets no reply and changes nothing |
| Control.Lines | quickshare.go:183 | the pieces ReadLine returns hold no newline |
| Control.LinesCons | quickshare.go:183 | text without a newline, followed by one, is the next line read |
| Control.Session | quickshare.go:182-228 | no contract of its own; Control.SessionExtend, Control.SessionAfterStop, Control.SessionStops and Control.SessionPreservesUnique state how it runs, and Control.Serve that the read loop computes it |
| Control.SessionExtend | quickshare.go:182-228 | a session not yet stopped goes on with the step of its next line |
| Control.SessionAfterStop | quickshare.go:221-226 | once a session has stopped, later lines change nothing |
| Control.SessionRunsOn | quickshare.go:182-228 | without a `stop` line the session has not stopped |
| Control.SessionStops | quickshare.go:221-228 | a session containing `stop` stops, and nothing after the first `stop` is handled |
| Control.SessionPreservesUnique | quickshare.go:182-228 | no sequence of commands introduces a duplicate name into a duplicate-free registry |
| Control.SessionOne | quickshare.go:182-228 | a one-line session is that line's step |
| Control.SessionTwo | quickshare.go:182-228 | a two-line session whose first line does not stop yields both replies in order and the second line's registry |
| Control.ParseAdd | quickshare.go:194-197 | the `add` line of a sendable share is parsed as `add` with its ShareName, which applies back to the share |
| Control.AddSendable | quickshare.go:194-207 | the server's answer to the `add` line of a sendable share: refused when the name is taken, appended otherwise |
| Control.RemoveMissing | quickshare.go:208-215 | removing a name nobody holds yields exactly the error reply and leaves the registry alone |
| Control.ClientAddRegisters | quickshare.go:411-416 | for a non-empty name and an `add` line that arrives as one line the server's trimming leaves alone (no newline, no whitespace at its end), the line registers exactly the share the client computed, unless the name is taken |
| Control.AddTwice | quickshare.go:194-207 | a second `add` of the same name is refused and the first binding is kept |
| Control.AddThenList | quickshare.go:194-220 | after an `add`, `ls` shows all earlier shares, then the new one last, then `OK` |
| Control.AddShare | quickshare.go:194-207 | the in-place `add` gives the same replies and registry as Exec |
| Control.ListShares | quickshare.go:216-220 | the loop emits ListLines of the registry followed by `OK` |
| Control.Handle | quickshare.go:189-227 | the in-place dispatch of one line gives the same replies, registry and stop flag as Step |
| Control.Serve | quickshare.go:179-230 | the read loop gives Session's replies, registry and stop flag, and keeps a valid registry valid |
| Http.GetHttpFilename | quickshare.go:74-79 | "" when the URI has no '/', otherwise exactly the text after its first '/' |
| Http.GetHttpFilenameOfPath | quickshare.go:74-79 | the URI `/name` asks for `name` |
| Http.IsIndexName | quickshare.go:144 | no contract of its own; Http.Resolve states that exactly these names select the index |
| Http.Intro | quickshare.go:150 | no contract of its own; Http.IndexShowsCount states that it carries the count in decimal |
| Http.Item | quickshare.go:152 | no contract of its own; Http.IndexShowsShare states that each share's entry is on the page |
| Http.Items | quickshare.go:151-153 | no contract of its own; Http.ItemsConcat, Http.ItemsAt and Http.ItemsStep state that it lists the entries in registry order |
| Http.IndexPage | quickshare.go:144-156 | no contract of its own; Http.IndexPageShape, Http.IndexShowsCount and Http.IndexShowsShare state what the page holds, and Http.RenderIndex that the loop writes it |
| Http.ItemsConcat | quickshare.go:151-153 | the entries of two joined lists are the entries of each, one after the other |
| Http.ItemsAt | quickshare.go:151-153 | share k's entry sits between the entries of the shares before and after it |
| Http.IndexPageShape | quickshare.go:144-156 | the index starts with the title, and it says "No shares" exactly when the registry is empty |
| Http.IndexShowsCount | quickshare.go:150 | a non-empty index shows, after the title and "<p>", digits that read back as the number of shares |
| Http.IndexShowsShare | quickshare.go:150-155 | every share's `<li>` entry appears in the index, between the entries of the shares before and after it |
| Http.NotFoundAnswer | quickshare.go:157-163 | status 404 exactly for a name that is neither the index nor a share, with body `Object not found`; every other request gets 200 |
| Http.Status | quickshare.go:159-163 | no contract of its own; Http.NotFoundAnswer states which requests get 404 and that all others get 200 |
| Http.Body | quickshare.go:162 | no contract of its own; Http.NotFoundAnswer states the 404 body, and Http.Resolve that the index body is IndexPage |
| Http.Resolve | quickshare.go:142-163 | the index exactly for "" and `index.html`; a download only of a share in the registry with the requested name, the first one; 404 exactly when neither |
| Http.LinkDownloads | quickshare.go:152-158 | in a duplicate-free registry, following a share's index link downloads that share, unless its name is an index name |
| Http.IndexShadows | quickshare.go:144 | no share called "" or `index.html` is ever downloaded |
| Http.ItemsStep | quickshare.go:151-153 | appending one entry extends the page by the next share |
| Http.RenderIndex | quickshare.go:144-156 | the rendering loop produces IndexPage of the registry |
| Http.HandleRequest | quickshare.go:140-163 | the handler's response is Resolve's |
| Client.Classify | quickshare.go:424-432 | after trimming: `OK` prefix is success; otherwise an `ERR ` prefix is a refusal carrying the text after it; anything else is reported as it stands |
| Client.AddLine | quickshare.go:416 | no contract of its own; Control.ClientAddRegisters and Client.AddRoundTrip state what the server does with it |
| Client.AddRoundTrip | quickshare.go:411-432 | under the same conditions as ClientAddRegisters, the client reads success exactly when the name was free, and then the registry holds its share at the end; otherwise it reads the refusal `Share exists already` and nothing changed |
| Client.ReadAddReply | quickshare.go:424-432 | each of the server's two answers to `add` is classified as that answer |
| Client.AddedRead | quickshare.go:426 | the success reply is read as success |
| Client.ErrorRead | quickshare.go:428-429 | an `ERR ` reply is read as a refusal with the server's reason |
| Client.LsStep | quickshare.go:216-220 | the line `ls` lists every share and then `OK` |
| Client.RequestLinesAsWritten | quickshare.go:391 | the request as written, followed by an `add` line, is read as `ls` and then the note with the `add` line glued to it |
| Client.RequestLines | quickshare.go:391 | the request `ls\n`, followed by an `add` line, is read as `ls` and then the `add` line |
| Client.GluedAddIgnored | quickshare.go:189-227 | the note with an `add` line glued to it is no command: no reply, no change |
| Client.ListThenAddAsWritten | quickshare.go:391 | as written, the stream splits into `ls` and the glued line, and the `add` gets no reply and registers nothing |
| Client.ListThenAdd | quickshare.go:391 | with `ls\n` sent, the stream splits into `ls` and the `add` line, the listing comes first and the `add` is answered and classified as usual |

## Left out

- Sockets, `bufio` line reading and connection writes. A session is the sequence of lines
  already read, and replies are a sequence of lines. Control.Lines splits a stream the way
  `ReadLine` does, and the Findings lemmas use it. It does not drop a carriage return before
  the newline, which the server's trimming removes anyway. `ReadLine` splitting very long
  lines and read errors ending a session are not modelled.
- `os.Getwd` becomes the parameter `cwd` of type `Dir`, a rooted path. Its error path, the
  panic, is not modelled.
- `sendFile`: stat, open, the headers and the 8192-byte copy loop, and the 500
  "Server error" answer when it fails. A download is represented by the share it serves.
- `http.ListenAndServe`, request parsing, and any percent-decoding of the request URI. The
  URI is taken as a character string as given.
- UDP discovery (`broadcastUdp`, `runDiscover`, `udpServer`), signal handling, `Exit` and
  `exists`. These are network I/O, timing and process control.
- Command-line flag parsing, the help text, mode selection, verbose logging and the
  client's `--ls` output loop. Only the request `--ls` sends is modelled, in Findings.
- Goroutines and the unsynchronised access to the global share list. Each command or
  request is one atomic step on the registry.
- The unused `Timeout` field and the `Host` type.
- The startup population of the registry, which appends without a duplicate check. The
  `Registry` constructor takes any list. `Serve` and the session lemmas state that a
  duplicate-free registry stays duplicate-free, not that every registry is one.
- Text.Trim: Go strings are byte sequences and TrimSpace decodes UTF-8. The model works on
  characters and trims the whitespace set Go's `unicode.IsSpace` accepts: ASCII space, tab,
  newline, carriage return, vertical tab, form feed, U+0085, U+00A0 and the Unicode
  White_Space characters.
- Control.StepUnknown: an unrecognised line gets no reply, as the code does, not an error
  reply.
- Shares.ShareName has no contract of its own. What it promises is the round trip, stated by
  Shares.ApplyShareName and Shares.ClientSpecRoundTrip.
- Control.ClientAddRegisters and Client.AddRoundTrip assume the `add` line holds no newline.
  A newline would make the server read several lines, which these lemmas do not follow.

## Findings

| source | as written | input that shows it | evidently intended | confidence | as-written member | corrected member |
|---|---|---|---|---|---|---|
| quickshare.go:391 | `fmt.Sprintf("ls\n", arg)` has no verb for `arg`, so fmt appends `%!(EXTRA string=--ls)` after the newline | `quickshare --ls file` against a running server: the note and the following `add file` arrive as one line, which the server ignores; the client then waits for a reply that never comes | send `ls\n` | high, from fmt's documented handling of extra arguments; not executed | Client.ListThenAddAsWritten | Client.ListThenAdd |
