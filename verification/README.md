# naomii: provisioning and redirect core in Dafny

naomii is a small HTTP front door. `setup` binds a router on `0.0.0.0:<port>`.
Each request to `/` goes to `redirect_with_balance`, which does three things:

1. It duplicates the configured executable beside the original, under a
   random name `SUBPROCESS_<stem>_<hash><ext>`.
2. It starts the copy, detached, with a freshly allocated port as its only
   argument.
3. It answers with a 307 redirect to the configured server URI.

The copied executable is meant to be a backend like the C++ test server, so
the model covers that server too. The test server takes its port from the
command line and answers every connection with a small HTML page.

Every effect of the system is an input to the model. This covers the random
draws of the hash, the outcome of the byte copy, the port the allocator finds,
whether the operating system starts the process, and the bind and serve
outcomes of the listener. Functions return the effects they attempt, in order,
together with how the call ended. There are three endings:

- `Ok`: a value came back.
- `Err`: an error was returned to the caller.
- `Panic`: an `expect` or `unwrap` failed.

A panic is not swallowed by `let _ = …`. The provisioning call's panic
therefore takes down the request, and the client gets no reply.

Modules:

- `Outcomes`: `Option` and the three-way `Outcome`.
- `Decimal`: decimal rendering, as Rust's `{}` and C++'s `std::to_string` do it,
  and reading it back.
- `Text`: scanning helpers.
- `Paths`: the parts of Rust's `std::path` (Unix flavour) that the code uses:
  - component parsing from the back;
  - `file_name` and `parent`;
  - `file_stem` and `extension`;
  - `with_file_name`, which is pop followed by push.
- `Hash`: the 16-character `Alphanumeric` suffix.
- `Ports`: `get_free_port`.
- `Provision`: `create_new_file_copy` and `run_new_sub`.
- `Router`: `setup` and the request handler, alone and over a sequence of
  requests.
- `Http`: an HTTP/1.1 response reader (RFC 9112 message syntax, RFC 9110
  field names and values). It is the independent partner against which the
  test server's response is proved to read back exactly.
- `TestServer`: the `main` of `testing/testserver.cpp`, minus its sockets:
  - port selection through `std::stoi`, modelled as `strtol` base 10;
  - the HTML body;
  - the response bytes.

`src/server.rs` has no request counter and no threshold. Every request
provisions, and every request is redirected to the configured URI, never to
the new instance. `Router.ServeAllIsMemoryless` and
`Router.OneAttemptPerRequest` state this.

The redirect follows axum 0.7. There, `Redirect::temporary` panics with "URI
isn't a valid header value" when the URI holds a control character, and the
model treats that panic as an aborted request. The crate version is not pinned
by any file in this model.

## Model

| member | source | states |
|---|---|---|
| Ports.GetFreePort | src/ports.rs:3-7 | Yields exactly the port the crate found, a 16-bit value. When the crate finds none it panics; it never returns an error. |
| Hash.Generate | src/fs.rs:12-16 | Any 16 draws from the 62-letter alphabet give a 16-character string of ASCII letters and digits. |
| Hash.AlphabetIndex | src/fs.rs:13 | Every letter or digit has an index in the `Alphanumeric` alphabet, and the alphabet maps that index back to it. |
| Hash.EveryHashIsGenerated | src/fs.rs:12-16 | Every 16-character alphanumeric string is some outcome of the draws, so `IsHash` is exactly the generator's range. |
| Decimal.NatToString | src/fs.rs:108 | A port renders as a canonical numeral: digits only, with no leading zero. |
| Decimal.ValueOfNatToString | src/fs.rs:108 | Reading the rendered numeral gives the number back. |
| Decimal.NatToStringOfValue | src/fs.rs:95 | Every canonical numeral is the rendering of its value, so rendering is a bijection onto canonical numerals. |
| Decimal.NatToStringInjective | src/fs.rs:95 | Distinct ports render as distinct arguments. |
| Decimal.IntToString | testing/testserver.cpp:101 | Non-negatives render as the canonical numeral whose value is the number. Negatives render as '-' followed by the canonical numeral of the magnitude. |
| Paths.TrimRight | src/fs.rs:63-66 | Yields the longest prefix of the path that ends in a component. This strips exactly the trailing separators and `.` pieces, and leaves an already trimmed path unchanged. |
| Paths.FileNameIsValid | src/fs.rs:57-60 | A file name, when present, is non-empty, holds no separator, and is neither "." nor "..". |
| Paths.ParentIsTrimmed | src/fs.rs:63-66 | A parent, when present, is a trimmed prefix of the path. |
| Paths.PushValidName | src/fs.rs:33-36 | Pushing a valid name makes it the file name, and the trimmed base becomes the parent. |
| Paths.WithFileNameKeepsDirectory | src/fs.rs:33-36 | `with_file_name` installs the new name. A path that had a file name keeps its parent; one without has itself, trimmed, as the parent. |
| Paths.StemAndExtension | src/fs.rs:22-26 | There is a stem exactly when there is a file name. With an extension, name = stem + "." + extension, the extension has no dot, and the stem is non-empty. Without one, the stem is the whole name, which has no dot after its first character. |
| Paths.StemAndExtensionOf | src/fs.rs:22-26 | Conversely, a file name `s.e`, with `s` non-empty and no dot in `e`, has stem `s` and extension `e`. |
| Paths.BareNameIsFileName | src/fs.rs:63-66 | A bare file name is its own file name, and its parent is the empty path. |
| Paths.ParentOfNestedFile | src/fs.rs:63-66 | The parent of "/foo/bar" is "/foo". |
| Paths.FileNameSkipsTrailingDot | src/fs.rs:57-60 | The file name of "foo.txt/." is "foo.txt". |
| Paths.NoFileNameAfterDotDot | src/fs.rs:57-60 | "foo/.." has no file name. |
| Paths.DotFileHasNoExtension | src/fs.rs:22-26 | ".bashrc" has stem ".bashrc" and no extension. |
| Paths.ExtensionIsAfterLastDot | src/fs.rs:22-26 | "foo.tar.gz" has stem "foo.tar" and extension "gz". |
| Provision.RunNewSub | src/fs.rs:53-112 | Succeeds exactly when the path has a file name and a parent, a port was found and the spawn worked. It never returns an error, only panics. It launches at most once: the given path, from its parent directory, with the port's decimal as the only argument. On success the address names that port. |
| Provision.CreateNewFileCopy | src/fs.rs:11-51 | First copies the original to the derived path. Returns the copy error, and nothing else, exactly when the copy fails. Every launch is of the copy. |
| Provision.AddressPortOfAddress | src/fs.rs:108 | `http://localhost:<port>` reads back to the same port. |
| Provision.CopyNameIsValid | src/fs.rs:33-36 | The derived name is one valid file name, with no separator, whatever the original path. |
| Provision.CopySitsBesideOriginal | src/fs.rs:33-36 | The copy's file name is exactly the derived name. Its parent exists and, when the original has a file name, equals the original's parent. |
| Provision.CopyNameFromFileName | src/fs.rs:22-36 | In terms of the original name `s.e`, the copy is `SUBPROCESS_s_<hash>.e`. A name without an extension gives `SUBPROCESS_<name>_<hash>`; no name gives `SUBPROCESS__<hash>`. |
| Provision.CopyKeepsExtension | src/fs.rs:22-36 | The copy keeps the original's extension, and its stem is `SUBPROCESS_<stem>_<hash>`. |
| Provision.ProvisionAfterCopy | src/fs.rs:45-101 | After a good copy, the "no file name" and "no parent" panics cannot happen. A missing port gives exactly copy + unwrap panic. Otherwise the copy is launched once, from the original's directory, with the allocated port. The call succeeds exactly when the spawn works, and the address names that port; a spawn failure panics with "failed to spawn process". |
| Provision.BareNameLaunchesFromEmptyDirectory | src/fs.rs:63-66 | For a bare file name, the launch's working directory is the empty path. |
| Router.ListenPort | src/server.rs:21-25 | A non-zero port is used as given. For 0 the allocator's port is used, and a panic occurs when the allocator finds none. |
| Router.Setup | src/server.rs:20-42 | Panics exactly when a fresh port is needed and none is found. Otherwise the listener binds first. A bind failure stops before serving, with an error. A successful bind is followed by serving the given configuration. The outcome is Ok exactly when a port is available, the bind succeeds and serving ends without error. |
| Router.SetupBindsChosenPort | src/server.rs:21-26 | The bound address `0.0.0.0:<port>` carries the chosen port unchanged, with no range check. |
| Router.HandleRequest | src/server.rs:44-48 | Every request first copies the configured executable. It redirects with 307 to the configured URI exactly when provisioning did not panic and the URI is a valid header value. |
| Router.ServeAll | src/server.rs:29-33 | Handling requests never changes the configuration, and each request yields one exchange. |
| Router.ServeAllIsMemoryless | src/server.rs:44-48 | The i-th exchange equals what a lone request gets from the initial configuration, so it depends only on that configuration and the i-th request's own inputs. |
| Router.ExchangeCopiesOnce | src/server.rs:45 | One request copies the configured executable exactly once. |
| Router.OneAttemptPerRequest | src/server.rs:44-48 | n requests make exactly n copy attempts. |
| Router.ReplyIgnoresProvisioningResult | src/server.rs:45-47 | Whether provisioning returned an address or an error, the reply is the same. |
| Router.CopyFailureStillRedirects | src/server.rs:45-47 | A failed copy is returned as an error and discarded, and the client is still redirected. |
| Router.ProvisioningPanicAbortsRequest | src/server.rs:45 | A missing port or a failed spawn aborts the request with that panic message, so no redirect is sent. |
| TestServer.SelectPort | testing/testserver.cpp:11-27 | With no argument the port is 8080. Otherwise the program listens exactly when the first argument converts to a value in [1, 65535], and then on that value. Any other case returns 1. |
| TestServer.StoiReadsNumeral | testing/testserver.cpp:16 | White space, an optional sign, then digits convert to the signed value whatever follows, or throw `out_of_range` outside `int`. |
| TestServer.StoiAfterSpaces | testing/testserver.cpp:16 | Leading `isspace` characters are skipped. |
| TestServer.StoiWithoutDigits | testing/testserver.cpp:16 | When no digit follows the white space and optional sign, `invalid_argument` is thrown. |
| TestServer.StoiOfIntToString | testing/testserver.cpp:16 | Every `int` written by `std::to_string` is read back by `std::stoi` as the same value. |
| TestServer.SelectPortReadsDecimal | testing/testserver.cpp:14-20 | Every port in [1, 65535], written in decimal, is accepted as itself. |
| TestServer.SelectPortRejectsOutOfRange | testing/testserver.cpp:17-19 | A numeral outside [1, 65535] makes the program return 1. |
| TestServer.BodyShowsPort | testing/testserver.cpp:98-103 | The page contains "Server running on port: <port>" in decimal. |
| TestServer.StatusLineReadsBack | testing/testserver.cpp:106 | The status line reads as HTTP/1.1, 200, "OK". |
| TestServer.FieldsReadBack | testing/testserver.cpp:107-110 | The header block reads back as the three fields sent, followed by the body. |
| TestServer.SentFieldsFrameBody | testing/testserver.cpp:108 | Content-Length frames exactly the body's length. |
| TestServer.ResponseReadsBack | testing/testserver.cpp:105-110 | An HTTP/1.1 reader parses the response as 200 OK with the sent fields and exactly the body, framed by its length. |

## Left out

- Output to the console (`println!`, `std::cout`, `std::cerr`): it has no effect on behaviour.
- The byte copy itself, the process spawn, and the detaching of the child: their outcomes are oracle inputs, and the contents of the copied file are not modelled.
- The randomness of `thread_rng`: the draws are inputs, as alphabet indices. The rejection sampling inside `rand` is not modelled.
- `port_check::free_local_port`: only its answer is modelled, as an input. The allocator's internals, and any race between allocation and use, are outside the model.
- The listener's sockets, axum's routing of paths other than `/`, and tokio's scheduling: the bind and serve outcomes are inputs.
- Router.Setup: the bind outcome is a free input, even for a port above 65535. tokio cannot parse `0.0.0.0:<port>` for such a port, so in the program that bind always fails. The model does not tie the bind error to the port.
- Concurrency: the model handles requests one after another. The handler shares no mutable state, so the order does not change any reply.
- Ports.GetFreePort: widens the 16-bit port to `u32` without change. Two bindings assign the `u16` to a `u32` without a conversion: `let port: u32 = get_free_port()` in `src/fs.rs:72`, and `let naomii_port: u32 = if nport == 0 { get_free_port() } else { nport }` in `src/server.rs:21-25`. `Router.ListenPort` widens the same way.
- Windows path syntax: drive prefixes and `\` separators are not modelled, only Unix paths. The `cfg!(target_os = "windows")` branches of `run_new_sub` are identical, so they are modelled once.
- The test server's Winsock sockets, `listen`, `accept`, `recv`, and its bind-error messages: the model stops at the port choice and at the bytes it sends. The time shown in the page is an input.
- `src/main.rs`, the command-line entry point, is not part of this model.
