/** Concrete runs of the whole binding, from process start. Paths and the
    library name are any strings without NUL, so they reach the converter
    whole. */
module Scenarios {
  import opened Common
  import opened JsValue
  import opened NativeInterface
  import opened Marshal
  import opened Worker
  import opened Lifecycle

  /** A linker that opens `lib` and finds both symbols in it. */
  function Working(lib: string): Linker
  {
    Linker(p => p == lib, (p, sym) => p == lib)
  }

  /** A linker that opens nothing. */
  function Missing(): Linker
  {
    Linker(p => false, (p, sym) => false)
  }

  function SingleFileArg(emf: string, svg: string, lib: string): Arg
  {
    Object(map["emffile" := JStr(emf), "svgfile" := JStr(svg),
               "verbose" := JBool(false), "library" := JStr(lib)])
  }

  /** The single-file request parses to its own paths and library name. */
  lemma SingleFileArgParsed(emf: string, svg: string, lib: string)
    requires '\0' !in emf && '\0' !in svg && '\0' !in lib
    ensures ParseFiles(SingleFileArg(emf, svg, lib)) == Ok(Files(emf, [], svg))
    ensures PropertyAsString(SingleFileArg(emf, svg, lib), "library") == Some(lib)
  {
    var arg := SingleFileArg(emf, svg, lib);
    assert Property(arg, "emffile") == JStr(emf);
    assert Property(arg, "svgfile") == JStr(svg);
    assert Property(arg, "library") == JStr(lib);
    CTextPrefix(emf);
    CTextPrefix(svg);
    CTextPrefix(lib);
  }

  /** A single-file request against a working library, converted
      successfully, reports `(null, true)` once. */
  lemma SingleFileSucceeds(emf: string, svg: string, lib: string)
    requires '\0' !in emf && '\0' !in svg && '\0' !in lib
    ensures var es := [Invoke(SingleFileArg(emf, svg, lib), Working(lib)), Work(0, 1), Complete(0)];
            Run(Init(), es).log == [Notification(0, CallbackArgs(None, true))]
  {
    SingleFileArgParsed(emf, svg, lib);
    var es := [Invoke(SingleFileArg(emf, svg, lib), Working(lib)), Work(0, 1), Complete(0)];
    var w1 := Step(Init(), es[0]);
    assert w1.iface == Interface(Some(lib), true, true);
    assert w1.items == [Accepted(Queued, w1.items[0].ctx)];
    var w2 := Step(w1, Work(0, 1));
    assert w2.items[0].ctx.callresult;
    var w3 := Step(w2, Complete(0));
    assert w3.log == [Notification(0, CallbackArgs(None, true))];
    assert es[1..] == [Work(0, 1), Complete(0)];
    assert es[1..][1..] == [Complete(0)];
    assert es[1..][1..][1..] == [];
    assert Run(w2, [Complete(0)]) == w3;
    assert Run(w1, [Work(0, 1), Complete(0)]) == w3;
  }

  /** The same request when the library cannot be opened reports the
      single-file failure message, whatever status the converter would have
      returned. */
  lemma SingleFileWithoutLibrary(emf: string, svg: string, lib: string, native: int)
    requires '\0' !in emf && '\0' !in svg && '\0' !in lib
    ensures var es := [Invoke(SingleFileArg(emf, svg, lib), Missing()), Work(0, native), Complete(0)];
            Run(Init(), es).log == [Notification(0, CallbackArgs(Some(SvgFailed), false))]
  {
    SingleFileArgParsed(emf, svg, lib);
    var es := [Invoke(SingleFileArg(emf, svg, lib), Missing()), Work(0, native), Complete(0)];
    var w1 := Step(Init(), es[0]);
    assert w1.iface == Unloaded();
    assert w1.items == [Accepted(Queued, w1.items[0].ctx)];
    var w2 := Step(w1, Work(0, native));
    assert !w2.items[0].ctx.callresult && w2.items[0].ctx.error == SvgFailed;
    var w3 := Step(w2, Complete(0));
    assert w3.log == [Notification(0, CallbackArgs(Some(SvgFailed), false))];
    assert es[1..] == [Work(0, native), Complete(0)];
    assert es[1..][1..] == [Complete(0)];
    assert es[1..][1..][1..] == [];
    assert Run(w2, [Complete(0)]) == w3;
    assert Run(w1, [Work(0, native), Complete(0)]) == w3;
  }

  /** A two-page request reaches the multi-page entry point with count 2 and
      the pages in their original order. */
  lemma TwoPages(i: Interface, p1: string, p2: string, html: string, native: int)
    requires Valid(i) && i.htmlEntry
    requires '\0' !in p1 && '\0' !in p2 && '\0' !in html
    ensures var arg := Object(map["emffile" := JArr([JStr(p1), JStr(p2)]), "htmlfile" := JStr(html)]);
            var m := ProcessArguments(i, arg, Missing());
            && m.request.Ok?
            && var d := DoWork(i, m.request.value, native);
            d.call == Some(HtmlCall(2, [p1, p2], html, m.request.value.options))
  {
    var arg := Object(map["emffile" := JArr([JStr(p1), JStr(p2)]), "htmlfile" := JStr(html)]);
    var elems := [JStr(p1), JStr(p2)];
    assert Property(arg, "emffile") == JArr(elems);
    assert Property(arg, "htmlfile") == JStr(html);
    CTextPrefix(p1);
    CTextPrefix(p2);
    CTextPrefix(html);
    assert elems[..1] == [JStr(p1)];
    assert elems[..1][..0] == [];
    assert StringElements(elems) == [p1, p2];
  }

  /** An empty `emffile` array is refused with no work queued and no
      callback, and the library is left untouched. */
  lemma NoPagesRefused(w: World, html: string, lib: string)
    ensures var arg := Object(map["emffile" := JArr([]), "htmlfile" := JStr(html),
                                  "library" := JStr(lib)]);
            var w' := RunCallback(w, arg, Working(lib));
            && w'.items[|w.items|] == Rejected(NoPages)
            && w'.iface == w.iface && w'.log == w.log
  {
  }

  /** Once a library is held, a later call naming a different library does
      not replace it. */
  lemma FirstLoadWins(lib: string, other: string)
    requires '\0' !in lib
    ensures var arg2 := Object(map["emffile" := JStr("b.emf"), "svgfile" := JStr("b.svg"),
                                   "library" := JStr(other)]);
            var es := [Invoke(SingleFileArg("a.emf", "a.svg", lib), Working(lib)),
                       Invoke(arg2, Linker(p => true, (p, s) => true))];
            Run(Init(), es).iface == Interface(Some(lib), true, true)
  {
    SingleFileArgParsed("a.emf", "a.svg", lib);
    var arg2 := Object(map["emffile" := JStr("b.emf"), "svgfile" := JStr("b.svg"),
                           "library" := JStr(other)]);
    var es := [Invoke(SingleFileArg("a.emf", "a.svg", lib), Working(lib)),
               Invoke(arg2, Linker(p => true, (p, s) => true))];
    var w1 := Step(Init(), es[0]);
    assert w1.iface == Interface(Some(lib), true, true);
    assert es[1..] == [es[1]];
    assert es[1..][1..] == [];
  }
}
