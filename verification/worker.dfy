/** The worker-thread half of a request (`DoWork`) and the shaping of the
    completion callback's arguments (`ProcessReturn`). */
module Worker {
  import opened Common
  import opened NativeInterface
  import opened Marshal

  const HtmlFailed: string := "EMF to HTML convert failed."
  const SvgFailed: string := "EMF to SVG convert failed."

  /** The conversion of the page count (`size_t`) to the converter's `int`
      parameter: two's complement wrap-around to 32 bits. */
  function CInt(n: nat): (r: int)
    ensures -0x8000_0000 <= r < 0x8000_0000
    ensures (n - r) % 0x1_0000_0000 == 0
    ensures n < 0x8000_0000 ==> r == n
  {
    var m := n % 0x1_0000_0000;
    if m < 0x8000_0000 then m else m - 0x1_0000_0000
  }

  /** The context after the work ran, and the native call made, if any. */
  datatype Done = Done(ctx: Context, call: Option<NativeCall>)

  /** `DoWork`: a non-empty page list goes to the multi-page entry point,
      anything else to the single-file one. `native` is the status the
      converter returns if it is reached. Success is a non-zero status; a
      failure records the fixed message of the call shape. */
  function DoWork(i: Interface, ctx: Context, native: int): (d: Done)
    ensures |ctx.pages| > 0 ==> (d.call.Some? <==> i.htmlEntry)
    ensures |ctx.pages| > 0 && d.call.Some? ==>
              d.call.value == HtmlCall(CInt(|ctx.pages|), ctx.pages, ctx.output, ctx.options)
    ensures |ctx.pages| == 0 ==> (d.call.Some? <==> i.svgEntry)
    ensures |ctx.pages| == 0 && d.call.Some? ==>
              d.call.value == SvgCall(ctx.emfFile, ctx.output, ctx.options)
    ensures d.ctx.callresult <==> d.call.Some? && native != 0
    ensures !d.ctx.callresult ==> d.ctx.error == (if |ctx.pages| > 0 then HtmlFailed else SvgFailed)
    ensures d.ctx.callresult ==> d.ctx.error == ctx.error
    ensures d.ctx.(callresult := ctx.callresult, error := ctx.error) == ctx
  {
    if |ctx.pages| > 0 then
      var out := CallHtml(i, CInt(|ctx.pages|), ctx.pages, ctx.output, ctx.options, native);
      if out.status != 0 then Done(ctx.(callresult := true), out.call)
      else Done(ctx.(error := HtmlFailed, callresult := false), out.call)
    else
      var out := CallSvg(i, ctx.emfFile, ctx.output, ctx.options, native);
      if out.status != 0 then Done(ctx.(callresult := true), out.call)
      else Done(ctx.(error := SvgFailed, callresult := false), out.call)
  }

  /** The two arguments passed to the completion callback. */
  datatype CallbackArgs = CallbackArgs(error: Option<string>, success: bool)

  /** `ProcessReturn`'s argument vector: `(null, true)` on success and
      `(error, false)` otherwise. */
  function ProcessReturn(ctx: Context): (a: CallbackArgs)
    ensures a.success == ctx.callresult
    ensures a.error.None? <==> ctx.callresult
    ensures a.error.Some? ==> a.error.value == ctx.error
  {
    if ctx.callresult then CallbackArgs(None, true) else CallbackArgs(Some(ctx.error), false)
  }

  /** End to end for any context: the callback reports
      success exactly when the entry point for the request's shape is loaded
      and returns non-zero, and otherwise carries that shape's message. */
  lemma ReportMatchesNative(i: Interface, ctx: Context, native: int)
    ensures var a := ProcessReturn(DoWork(i, ctx, native).ctx);
            var entry := if |ctx.pages| > 0 then i.htmlEntry else i.svgEntry;
            && (a == CallbackArgs(None, true) <==> entry && native != 0)
            && (a != CallbackArgs(None, true) ==>
                  a == CallbackArgs(Some(if |ctx.pages| > 0 then HtmlFailed else SvgFailed), false))
  {
  }
}
