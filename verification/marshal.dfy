/** `ThreadWorkerContext` and its argument processing: turning the options
    object into either a multi-page request (page list plus `htmlfile`) or a
    single-file request (`emffile` plus `svgfile`), building the generator
    options, and loading the native interface on the first usable call. */
module Marshal {
  import opened Common
  import opened JsValue
  import opened GeneratorOptions
  import opened NativeInterface

  /** Error text when an `emffile` array holds no string. */
  const NoPages: string := "No pages in emffile array"

  /** The per-request work item: its paths, options and result slot. A
      non-empty `pages` selects the multi-page converter. */
  datatype Context = Context(
    emfFile: string,
    pages: seq<string>,
    output: string,
    options: Options,
    callresult: bool,
    error: string)

  /** The constructor: empty paths, zero-filled options with the SVG
      delimiter on, no result and no error yet. */
  function NewContext(): (c: Context)
    ensures c.emfFile == "" && c.pages == [] && c.output == ""
    ensures c.options == Defaults() && c.options.svgDelimiter && LayoutZeroed(c.options)
    ensures !c.callresult && c.error == ""
  {
    Context("", [], "", Defaults(), false, "")
  }

  /** The string elements of an array, each read by `getAsString`, in their
      original order; every other element is dropped. */
  function StringElements(elems: seq<JVal>): (r: seq<string>)
    ensures |r| <= |elems|
    ensures forall k :: 0 <= k < |r| ==> '\0' !in r[k]
    ensures r == [] <==> forall i :: 0 <= i < |elems| ==> !elems[i].JStr?
    decreases |elems|
  {
    if elems == [] then []
    else
      var init := StringElements(elems[..|elems| - 1]);
      assert forall i :: 0 <= i < |elems| - 1 ==> elems[..|elems| - 1][i] == elems[i];
      match elems[|elems| - 1]
      case JStr(s) => CTextPrefix(s); init + [CText(s)]
      case _ => init
  }

  /** The indices of the string elements of an array, in increasing order. */
  function StringPositions(elems: seq<JVal>): seq<nat>
    decreases |elems|
  {
    if elems == [] then []
    else
      var init := StringPositions(elems[..|elems| - 1]);
      if elems[|elems| - 1].JStr? then init + [|elems| - 1] else init
  }

  /** `pages` is the subsequence of `elems` picked out by the increasing
      index list `at`, and `at` picks out every string element. */
  ghost predicate PicksAllStrings(elems: seq<JVal>, pages: seq<string>, at: seq<nat>)
  {
    && |at| == |pages|
    && (forall k :: 0 <= k < |at| ==>
          at[k] < |elems| && elems[at[k]].JStr? && pages[k] == CText(elems[at[k]].s))
    && (forall k, l :: 0 <= k < l < |at| ==> at[k] < at[l])
    && (forall i :: 0 <= i < |elems| && elems[i].JStr? ==> i in at)
  }

  /** The page list is exactly the string elements in their original order. */
  lemma {:induction false} StringElementsInOrder(elems: seq<JVal>)
    ensures PicksAllStrings(elems, StringElements(elems), StringPositions(elems))
    decreases |elems|
  {
    if elems != [] {
      var n := |elems| - 1;
      var front := elems[..n];
      StringElementsInOrder(front);
      var r0, p0 := StringElements(front), StringPositions(front);
      assert forall i :: 0 <= i < n ==> front[i] == elems[i];
      assert forall k :: 0 <= k < |p0| ==> p0[k] < n;
      match elems[n]
      case JStr(s) =>
        assert StringElements(elems) == r0 + [CText(s)];
        assert StringPositions(elems) == p0 + [n];
      case _ =>
        assert StringElements(elems) == r0;
        assert StringPositions(elems) == p0;
    }
  }

  /** The loop that collects the pages of an `emffile` array. */
  method CollectPages(elems: seq<JVal>) returns (pages: seq<string>)
    ensures pages == StringElements(elems)
  {
    pages := [];
    var i := 0;
    while i < |elems|
      invariant 0 <= i <= |elems|
      invariant pages == StringElements(elems[..i])
    {
      assert elems[..i + 1][..i] == elems[..i];
      match elems[i] {
        case JStr(s) => pages := pages + [CText(s)];
        case _ =>
      }
      i := i + 1;
    }
    assert elems[..|elems|] == elems;
  }

  /** The paths a request names. */
  datatype Files = Files(emfFile: string, pages: seq<string>, output: string)

  /** The `emffile` branch of argument processing. An array selects
      multi-page mode, which needs a string element and a string `htmlfile`;
      otherwise `emffile` and `svgfile` must both be strings. A nullish
      argument skips the branch and leaves every path empty. */
  function ParseFiles(arg: Arg): (r: Result<Files>)
    ensures arg.Nullish? ==> r == Ok(Files("", [], ""))
    ensures arg.Object? && Property(arg, "emffile").JArr? ==>
              var pages := StringElements(Property(arg, "emffile").elems);
              && (pages == [] ==> r == Err(NoPages))
              && (pages != [] && !Property(arg, "htmlfile").JStr? ==> r == Err(WrongArguments))
              && (pages != [] && Property(arg, "htmlfile").JStr? ==>
                    r == Ok(Files("", pages, CText(Property(arg, "htmlfile").s))))
    ensures arg.Object? && Property(arg, "emffile").JStr? ==>
              if Property(arg, "svgfile").JStr? then
                r == Ok(Files(CText(Property(arg, "emffile").s), [], CText(Property(arg, "svgfile").s)))
              else
                r == Err(WrongArguments)
    ensures arg.Object? && !Property(arg, "emffile").JArr? && !Property(arg, "emffile").JStr? ==>
              r == Err(WrongArguments)
  {
    match arg
    case Nullish => Ok(Files("", [], ""))
    case Object(_) =>
      match Property(arg, "emffile")
      case JArr(elems) =>
        var pages := StringElements(elems);
        if |pages| < 1 then Err(NoPages)
        else (
          match PropertyAsString(arg, "htmlfile")
          case None => Err(WrongArguments)
          case Some(html) => Ok(Files("", pages, html)))
      case v =>
        match AsString(v)
        case None => Err(WrongArguments)
        case Some(emf) => (
          match PropertyAsString(arg, "svgfile")
          case None => Err(WrongArguments)
          case Some(svg) => Ok(Files(emf, [], svg)))
  }

  /** The option block: zero-filled, `svgDelimiter` set, three flags read
      with a `false` default, and `linkResources` kept only when a
      `resourcepath` string backs it. */
  function ParseOptions(arg: Arg): (o: Options)
    ensures LayoutZeroed(o) && o.svgDelimiter
    ensures o.verbose <==> Property(arg, "verbose") == JBool(true)
    ensures o.emfplus <==> Property(arg, "emfplus") == JBool(true)
    ensures o.linkResources <==>
              Property(arg, "linkresources") == JBool(true) && Property(arg, "resourcepath").JStr?
    ensures o.resourcePath.Some? <==> o.linkResources
    ensures o.linkResources ==> o.resourcePath == Some(CText(Property(arg, "resourcepath").s))
  {
    var base := Defaults().(
      verbose := PropertyAsLogical(arg, "verbose", false),
      emfplus := PropertyAsLogical(arg, "emfplus", false),
      linkResources := PropertyAsLogical(arg, "linkresources", false));
    if base.linkResources then
      match PropertyAsString(arg, "resourcepath")
      case Some(path) => base.(resourcePath := Some(path))
      case None => base.(linkResources := false)
    else
      base
  }

  /** The interface state after processing and the request, or the type
      error that refused it. */
  datatype Marshalled = Marshalled(iface: Interface, request: Result<Context>)

  /** `ProcessArguments`: a refused request stops before the options and the
      library are looked at; an accepted one carries its paths and options
      and may trigger the first library load. */
  function ProcessArguments(i: Interface, arg: Arg, dl: Linker): (m: Marshalled)
    ensures m.request.Err? <==> ParseFiles(arg).Err?
    ensures m.request.Err? ==> m.iface == i && m.request.message == ParseFiles(arg).message
    ensures m.request.Err? ==> m.request.message in {NoPages, WrongArguments}
    ensures m.request.Ok? ==>
              var c := m.request.value;
              && Files(c.emfFile, c.pages, c.output) == ParseFiles(arg).value
              && c.options == ParseOptions(arg)
              && !c.callresult && c.error == ""
    ensures m.request.Ok? ==> m.iface == EnsureLoaded(i, PropertyAsString(arg, "library"), dl)
    ensures m.request.Ok? && |m.request.value.pages| > 0 ==>
              arg.Object? && Property(arg, "emffile").JArr? && m.request.value.emfFile == ""
  {
    match ParseFiles(arg)
    case Err(msg) => Marshalled(i, Err(msg))
    case Ok(files) =>
      var ctx := NewContext().(
        emfFile := files.emfFile,
        pages := files.pages,
        output := files.output,
        options := ParseOptions(arg));
      Marshalled(EnsureLoaded(i, PropertyAsString(arg, "library"), dl), Ok(ctx))
  }
}
