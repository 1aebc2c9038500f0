/** The process-wide native interface: the library handle and the two entry
    points resolved from it (`s_lib_handle`, `s_femf2svg`, `s_femf2html`),
    `loadInterface`, the load decision at the end of argument processing, and
    the two call wrappers. The dynamic linker and the converter itself are
    foreign code and appear only as oracles. */
module NativeInterface {
  import opened Common
  import opened GeneratorOptions

  const SvgSymbol: string := "femf2svg"
  const HtmlSymbol: string := "femf2html"

  /** `handle` is null or names the library path it was opened from;
      `svgEntry` and `htmlEntry` say whether each entry point is non-null. */
  datatype Interface = Interface(handle: Option<string>, svgEntry: bool, htmlEntry: bool)

  /** What `dlopen` and `dlsym` answer: whether a path opens, and whether an
      opened library exports a symbol. */
  datatype Linker = Linker(opens: string -> bool, exports: (string, string) -> bool)

  /** Process start: all three globals are null. */
  function Unloaded(): Interface
  {
    Interface(None, false, false)
  }

  /** No entry point is ever resolved without an open handle. */
  predicate Valid(i: Interface)
  {
    i.handle.None? ==> !i.svgEntry && !i.htmlEntry
  }

  /** `loadInterface`: a failed open stores a null handle and leaves the
      entry points alone; a successful one resolves each symbol on its own,
      so a missing symbol nulls only its own entry point. */
  function LoadInterface(i: Interface, library: string, dl: Linker): (r: Interface)
    ensures dl.opens(library) <==> r.handle.Some?
    ensures r.handle.Some? ==> r.handle.value == library
    ensures r.handle.Some? ==> (r.svgEntry <==> dl.exports(library, SvgSymbol))
    ensures r.handle.Some? ==> (r.htmlEntry <==> dl.exports(library, HtmlSymbol))
    ensures r.handle.None? ==> r.svgEntry == i.svgEntry && r.htmlEntry == i.htmlEntry
  {
    if dl.opens(library) then
      Interface(Some(library), dl.exports(library, SvgSymbol), dl.exports(library, HtmlSymbol))
    else
      i.(handle := None)
  }

  /** The load step of argument processing: a load is attempted only while
      the handle is null and only when a library path string was supplied.
      Once a handle is held nothing changes, whatever path is passed. */
  function EnsureLoaded(i: Interface, library: Option<string>, dl: Linker): (r: Interface)
    ensures i.handle.Some? || library.None? ==> r == i
    ensures r != i ==> i.handle.None? && library.Some?
    ensures Valid(i) ==> Valid(r)
    ensures i.handle.None? && library.Some? ==>
              (r.handle.Some? <==> dl.opens(library.value))
    ensures r.handle.Some? ==> r.handle == (if i.handle.Some? then i.handle else library)
    ensures i.handle.None? && library.Some? ==> r == LoadInterface(i, library.value, dl)
  {
    if i.handle.None? && library.Some? then LoadInterface(i, library.value, dl) else i
  }

  /** The arguments one native call receives. */
  datatype NativeCall =
    | SvgCall(infile: string, outfile: string, options: Options)
    | HtmlCall(count: int, infiles: seq<string>, outfile: string, options: Options)

  /** The status a call wrapper returns and the native call it made, if any. */
  datatype CallOutcome = CallOutcome(status: int, call: Option<NativeCall>)

  /** `call_femf2svg`: `native` is the status the converter would return.
      A null entry point reports 0 (failure) without calling anything. */
  function CallSvg(i: Interface, infile: string, outfile: string, options: Options, native: int): (r: CallOutcome)
    ensures r.call.Some? <==> i.svgEntry
    ensures r.call.Some? ==> r.call.value == SvgCall(infile, outfile, options)
    ensures r.status == (if i.svgEntry then native else 0)
  {
    if i.svgEntry then CallOutcome(native, Some(SvgCall(infile, outfile, options)))
    else CallOutcome(0, None)
  }

  /** `call_femf2html`, the same for the multi-page entry point. */
  function CallHtml(i: Interface, count: int, infiles: seq<string>, outfile: string, options: Options, native: int): (r: CallOutcome)
    ensures r.call.Some? <==> i.htmlEntry
    ensures r.call.Some? ==> r.call.value == HtmlCall(count, infiles, outfile, options)
    ensures r.status == (if i.htmlEntry then native else 0)
  {
    if i.htmlEntry then CallOutcome(native, Some(HtmlCall(count, infiles, outfile, options)))
    else CallOutcome(0, None)
  }
}
