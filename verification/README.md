# node_emf2svg binding: request handling model

A Dafny model of the request-handling logic of the `emf2svg` Node.js N-API
binding. The binding exports one function taking an options object and a
completion callback. It validates the options into a single-file request
(`emffile` to `svgfile`) or a multi-page request (an `emffile` array to
`htmlfile`), fills a `generatorOptions` record, loads the native converter
library with `dlopen` on the first usable call, runs the conversion on a
libuv worker, and calls the callback back on the main thread with
`(null, true)` or `(message, false)`.

Modules, following the source:

- `Common`: `Option` and `Result`.
- `JsValue`: JavaScript values (`JVal`), the options argument (`Arg`: an
  object as a map from property names to values, or `undefined`/`null`),
  and the helpers `getAsString`, `getPropertyAsString` and
  `getPropertyAsLogical`.
- `GeneratorOptions`: the `generatorOptions` record (its boolean, string and
  unsigned fields) and its zero-filled default.
- `NativeInterface`: the process-wide library handle and its two entry
  points, `loadInterface`, the load decision, and the two call wrappers. The
  dynamic linker is an oracle (`Linker`); the converter's status is an oracle
  integer.
- `Marshal`: `ThreadWorkerContext` (`Context`) and `ProcessArguments`.
- `Worker`: `DoWork` and the callback argument pair built by `ProcessReturn`.
- `Lifecycle`: the process as a state machine (`World`) driven by three
  events: a call into the binding, a worker running a queued item, and a
  completion on the main thread. Its invariant gives "no callback twice,
  none for a refused request", and `Drain` gives "exactly one per accepted
  request".
- `Scenarios`: concrete end-to-end runs.

Behaviour of src/emf2svg.cc that the model keeps:

- Every string read from the options is copied as a C string, so it is cut
  at its first NUL character.
- The library is loaded while the arguments are processed, on the calling
  thread, and only for an accepted request. A missing `library` property
  does not refuse the request. `getAsString` still raises "Wrong arguments"
  (line 24), which the model leaves out. The request is queued anyway, and
  with no entry point it fails with the fixed conversion message.
- After a failed `dlopen` the handle stays null, so a later call retries.
- When the options argument is `undefined` or `null`, reading `emffile`
  fails and the whole file branch is skipped. The request is accepted with
  empty paths and goes to the single-file converter. No library is loaded,
  because `library` cannot be read either.
- The worker reads the interface when it runs, not when the request was
  queued. A request queued before the library was loaded can therefore use
  an interface that a later call loaded.

## Model

| member | source | states |
|---|---|---|
| `JsValue.CTextPrefix` | src/emf2svg.cc:34 | the text kept by the C-string copy is the longest NUL-free prefix of the string, and a string without NUL is kept whole |
| `JsValue.AsString` | src/emf2svg.cc:14-37 | a value yields text exactly when it is a string, and the text is that string cut at its first NUL |
| `JsValue.PropertyAsString` | src/emf2svg.cc:39-46 | a property read as a string succeeds exactly when the property holds a string, giving that string cut at its first NUL; a missing property or a nullish argument fails |
| `JsValue.PropertyAsLogical` | src/emf2svg.cc:48-63 | the result differs from the default only when the property is that boolean, and a boolean property always wins |
| `GeneratorOptions.Defaults` | src/emf2svg.cc:128-132 | the fresh record has every layout field zero or null, `svgDelimiter` true and every other flag false |
| `NativeInterface.LoadInterface` | src/emf2svg.cc:75-97 | the handle is non-null exactly when the library opens; each entry point is non-null exactly when its own symbol resolves; a failed open leaves both entry points as they were |
| `NativeInterface.EnsureLoaded` | src/emf2svg.cc:215-230 | loading happens only while the handle is null and a library string is given, and then the result is exactly `loadInterface`'s; a held handle is never replaced; the handle/entry-point invariant is kept; the handle is non-null afterwards exactly when that library opened |
| `NativeInterface.CallSvg` | src/emf2svg.cc:98-105 | a null single-file entry point returns 0 and calls nothing; otherwise the call carries the given paths and options and its status is returned unchanged |
| `NativeInterface.CallHtml` | src/emf2svg.cc:107-114 | the same for the multi-page entry point, with the page count and page list |
| `Marshal.NewContext` | src/emf2svg.cc:128-132 | a fresh context has empty paths, the zero-filled options with `svgDelimiter` on, no result and no error |
| `Marshal.StringElements` | src/emf2svg.cc:155-172 | there are no more pages than elements and no page holds a NUL; there are no pages exactly when no element is a string |
| `Marshal.StringElementsInOrder` | src/emf2svg.cc:155-167 | the page list is exactly the string elements in their original order: an increasing index list picks each page as its element's text up to the first NUL and covers every string element |
| `Marshal.CollectPages` | src/emf2svg.cc:152-167 | the collection loop returns exactly the string elements of the array |
| `Marshal.ParseFiles` | src/emf2svg.cc:143-188 | an array needs a string element (else "No pages in emffile array") and a string `htmlfile` (else "Wrong arguments"); otherwise `emffile` and `svgfile` must both be strings (else "Wrong arguments"); paths are the strings cut at their first NUL; a nullish argument gives empty paths |
| `Marshal.ParseOptions` | src/emf2svg.cc:199-214 | `verbose` and `emfplus` are true exactly when the property is boolean true; `linkResources` is true exactly when it is requested and `resourcepath` is a string, and then `resourcePath` is that string cut at its first NUL, else null; `svgDelimiter` is true and the layout fields are zero |
| `Marshal.ProcessArguments` | src/emf2svg.cc:136-233 | a refused request carries one of the two fixed messages and leaves the library state unchanged; an accepted one carries the parsed paths and options with no result yet, and its library state is the load decision's; a non-empty page list only comes from an `emffile` array |
| `Worker.CInt` | src/emf2svg.cc:243 | the page count handed to the converter is the count wrapped to a 32-bit signed int, equal to it below 2^31 |
| `Worker.DoWork` | src/emf2svg.cc:234-257 | non-empty pages go to the multi-page entry point with their count, in order; otherwise the single-file entry point; the result is true exactly when a call was made and returned non-zero; a failure records the message of its call shape; nothing else in the context changes |
| `Worker.ProcessReturn` | src/emf2svg.cc:258-287 | the callback gets `(null, true)` on success and `(error, false)` otherwise |
| `Worker.ReportMatchesNative` | src/emf2svg.cc:234-287 | the callback reports success exactly when the entry point for the request's shape is loaded and returns non-zero, else that shape's fixed message |
| `Lifecycle.RunCallback` | src/emf2svg.cc:304-322 | a call adds one request and takes the interface from argument processing; the request is refused exactly when the file options are invalid, with that refusal's message and the library state unchanged; an accepted one is queued holding the marshalled context; no callback runs |
| `Lifecycle.WorkAsync` | src/emf2svg.cc:290-294 | a worker turns a queued item into a completed one holding `DoWork`'s result against the current interface; anything else is a no-op |
| `Lifecycle.WorkAsyncComplete` | src/emf2svg.cc:296-302 | a completed item gets exactly one callback with its own result and is disposed; anything else is a no-op |
| `Lifecycle.Step` | src/emf2svg.cc:290-322 | no event moves an item backward or changes whether it was refused; the callback log only grows; a held library handle never changes |
| `Lifecycle.Run` | src/emf2svg.cc:290-322 | the same for any sequence of events |
| `Lifecycle.InvokeInv` | src/emf2svg.cc:304-322 | a call into the binding keeps the invariant |
| `Lifecycle.WorkInv` | src/emf2svg.cc:290-294 | a worker run keeps the invariant |
| `Lifecycle.CompleteInv` | src/emf2svg.cc:296-302 | a completion keeps the invariant |
| `Lifecycle.StepInv` | src/emf2svg.cc:290-322 | every event keeps the invariant |
| `Lifecycle.RunInv` | src/emf2svg.cc:290-322 | every sequence of events keeps the invariant |
| `Lifecycle.AtMostOnce` | src/emf2svg.cc:296-322 | under any schedule, no request's callback runs more than once and a refused request's never runs |
| `Lifecycle.SettleInv` | src/emf2svg.cc:290-302 | running and completing one item keeps the invariant, touches no other item, and leaves that item refused or disposed |
| `Lifecycle.Drain` | src/emf2svg.cc:290-322 | after every item is run and completed, each accepted request has had exactly one callback, each refused one none, and there are as many callbacks as accepted requests |
| `Scenarios.SingleFileArgParsed` | src/emf2svg.cc:178-183 | a single-file request with NUL-free strings parses to its own paths and library name |
| `Scenarios.SingleFileSucceeds` | src/emf2svg.cc:178-183 | a single-file request with a working library and a successful conversion reports `(null, true)` once |
| `Scenarios.SingleFileWithoutLibrary` | src/emf2svg.cc:251-256 | the same request with no library reports `("EMF to SVG convert failed.", false)` |
| `Scenarios.TwoPages` | src/emf2svg.cc:236-243 | a two-page array reaches the multi-page entry point with count 2 and the pages in order |
| `Scenarios.NoPagesRefused` | src/emf2svg.cc:168-172 | an empty `emffile` array is refused with "No pages in emffile array", and no library is loaded and no callback runs |
| `Scenarios.FirstLoadWins` | src/emf2svg.cc:215-230 | a second call naming another library leaves the first loaded interface in place |

## Left out

- JsValue.AsString: does not model the UTF-8 re-encoding done by `napi_get_value_string_utf8`, which replaces lone surrogates. Strings are sequences of characters, and only the cut at the first NUL is modelled.
- JsValue.PropertyAsString: reads through `getAsString`, so it leaves out the same re-encoding.

- N-API value extraction, reference creation and deletion, and `napi_call_function`: the JavaScript values are the `JVal` datatype, and a callback invocation is one `Notification` in the log.
- Exceptions raised by `napi_throw_type_error`: every N-API call is modelled as independent, and a raised exception neither reaches the caller nor blocks later calls. In the runtime, the caller gets a thrown "Wrong arguments" in three cases: a missing or non-string `library` property while no library is loaded (the request is still queued), a missing `resourcepath` when `linkresources` is set, and a non-string `emffile` array element. While that exception is pending, later N-API calls in the same call fail with `napi_pending_exception`.
- Non-string elements of an `emffile` array: the model drops them and keeps the string elements as pages, following the independent-call abstraction above. In the runtime, any non-string element leaves "Wrong arguments" pending, and the request then ends in a refusal with that message: the `htmlfile` read or the "No pages" throw fails. So "No pages in emffile array" reaches JavaScript only for an empty array.
- A first argument that is an array, or a primitive other than `undefined`/`null`: it is treated as an object holding its named properties.
- The "Error checking arguments" path of `getAsString`: it needs `napi_typeof` to fail on a valid value.
- Status checks guarded by `assert`: every such N-API call is assumed to succeed. This includes a failed callback invocation, which is only logged.
- The libuv worker pool and its scheduling: the model allows any interleaving of events. It leaves out the unsynchronised reads of the library globals by workers while the main thread writes them.
- Real `dlopen`/`dlsym` and the conversion algorithm: these are foreign code, modelled as oracles.
- `printf`/`fprintf` logging, including the verbose "Loaded library" message.
- `calloc`/`malloc`/`free` buffer handling, the leaked `cb_scope_reference`, and the lazily created worker name `s_workerName`.
- The `double` fields `imgHeight` and `imgWidth`: the binding only ever zeroes them.
- The declarations `emf2svg`, `emf2svg_is_emfplus` and the font-index functions in src/emf2svg.h: they have no implementation in the binding.
- Module registration (`Init`, `NAPI_MODULE`): plumbing with no decisions in it.
