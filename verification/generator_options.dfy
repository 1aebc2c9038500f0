/** The `generatorOptions` record handed to the native converter
    (src/emf2svg.h). Only its boolean, string and unsigned fields are kept. */
module GeneratorOptions {
  import opened Common

  /** C `unsigned` on the platforms the binding targets. */
  type u32 = x: int | 0 <= x < 0x1_0000_0000

  datatype Options = Options(
    nameSpace: Option<string>,
    verbose: bool,
    emfplus: bool,
    svgDelimiter: bool,
    linkResources: bool,
    resourcePath: Option<string>,
    pageWidth: u32,
    pageHeight: u32,
    pageLandscape: bool,
    leftMargin: u32,
    rightMargin: u32,
    lowerMargin: u32,
    upperMargin: u32)

  /** The fields the binding never assigns: still as zero-filling left them. */
  predicate LayoutZeroed(o: Options)
  {
    && o.nameSpace.None?
    && o.pageWidth == 0 && o.pageHeight == 0 && !o.pageLandscape
    && o.leftMargin == 0 && o.rightMargin == 0
    && o.lowerMargin == 0 && o.upperMargin == 0
  }

  /** The record after `memset(&options, 0, …)` and `svgDelimiter = true`. */
  function Defaults(): (o: Options)
    ensures LayoutZeroed(o) && o.svgDelimiter
    ensures !o.verbose && !o.emfplus && !o.linkResources && o.resourcePath.None?
  {
    Options(None, false, false, true, false, None, 0, 0, false, 0, 0, 0, 0)
  }
}
