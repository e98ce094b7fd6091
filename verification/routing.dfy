/**
 * The patched `ZipFile.prototype.openReadStream`: whether an entry's read is
 * bridged through `funzip`, and the options then forwarded to yauzl's own
 * `openReadStream`.
 */
module Routing {
  import opened Wrappers
  import opened JsValues
  import opened Options

  /** A plain options object: its own enumerable properties. */
  type Props = map<string, JsValue>

  /** `o[key]`, undefined when the property is missing. */
  function Get(o: Props, key: string): JsValue {
    if key in o then o[key] else Undefined
  }

  /** How a read is carried out: through `funzip` or not, and the options yauzl sees. */
  datatype ReadPlan = ReadPlan(bridged: bool, forwarded: Props)

  /** The entry's compression method is in the `funzip` list (`indexOf` uses strict equality). */
  predicate MethodEnabled(funzip: seq<JsValue>, compressionMethod: nat)
    requires compressionMethod < 0x1_0000
  {
    Num(compressionMethod) in funzip
  }

  /** `decompress == null || decompress`. */
  predicate WantsDecompression(o: Props) {
    IsNullish(Get(o, "decompress")) || Truthy(Get(o, "decompress"))
  }

  /** `start == null && end == null`: the whole entry is read. */
  predicate WholeEntry(o: Props) {
    IsNullish(Get(o, "start")) && IsNullish(Get(o, "end"))
  }

  /**
   * The read plan for one call. `options` is `None` when the call passes no
   * options (the callback in their place) or a falsy value; both read as `{}`.
   * A bridged read forwards a copy of the options with `decompress: false`,
   * so yauzl hands over the raw compressed bytes; any other read forwards the
   * options untouched.
   */
  function PlanRead(funzip: seq<JsValue>, compressionMethod: nat, options: Option<Props>): (p: ReadPlan)
    requires compressionMethod < 0x1_0000
    ensures var o := options.GetOr(map[]);
      && (p.bridged <==> MethodEnabled(funzip, compressionMethod) && WantsDecompression(o) && WholeEntry(o))
      && (p.bridged ==> Get(p.forwarded, "decompress") == Bool(false))
      && (p.bridged ==> p.forwarded.Keys == o.Keys + {"decompress"})
      && (p.bridged ==> forall k :: k in o && k != "decompress" ==> p.forwarded[k] == o[k])
      && (!p.bridged ==> p.forwarded == o)
  {
    var o := options.GetOr(map[]);
    if MethodEnabled(funzip, compressionMethod) && WantsDecompression(o) && WholeEntry(o) then
      ReadPlan(true, o["decompress" := Bool(false)])
    else
      ReadPlan(false, o)
  }

  /**
   * The forwarded options are a fixed point: planning the read again with
   * them forwards the same options and does not bridge.
   */
  lemma ForwardedNotRebridged(funzip: seq<JsValue>, compressionMethod: nat, options: Option<Props>)
    requires compressionMethod < 0x1_0000
    ensures var p := PlanRead(funzip, compressionMethod, options);
      PlanRead(funzip, compressionMethod, Some(p.forwarded)) == ReadPlan(false, p.forwarded)
  {
  }

  /**
   * Enabling more methods never takes a read off the bridge: the plan only
   * depends on the list through membership of the entry's method.
   */
  lemma MoreMethodsMoreBridging(funzip: seq<JsValue>, more: seq<JsValue>, compressionMethod: nat, options: Option<Props>)
    requires compressionMethod < 0x1_0000
    ensures PlanRead(funzip, compressionMethod, options).bridged
            ==> PlanRead(funzip + more, compressionMethod, options)
                == PlanRead(funzip, compressionMethod, options)
  {
  }

  /**
   * With `funzip: true` and `decompress: true`, a Deflate64 entry is bridged
   * with decompression switched off for yauzl, while a Deflate entry is
   * left to yauzl with the options as given.
   */
  lemma FunzipTrueBridgesDeflate64()
    ensures var funzip := Configure(Bool(true), Undefined).funzip;
      var options := map["decompress" := Bool(true)];
      && PlanRead(funzip, COMPRESS_DEFLATE64, Some(options)) == ReadPlan(true, map["decompress" := Bool(false)])
      && PlanRead(funzip, COMPRESS_DEFLATE, Some(options)) == ReadPlan(false, options)
  {
  }

  /**
   * `funzip: 1` is loosely equal to `true`: as written it bridges a
   * Deflate64 entry and not a method-1 entry; with the strict test it is
   * the other way round.
   */
  lemma LooselyTrueFunzipRouting()
    ensures var options := map["decompress" := Bool(true)];
      && PlanRead(Configure(Num(1), Undefined).funzip, COMPRESS_DEFLATE64, Some(options)).bridged
      && !PlanRead(Configure(Num(1), Undefined).funzip, 1, Some(options)).bridged
      && !PlanRead(ConfigureCorrected(Num(1), Undefined).funzip, COMPRESS_DEFLATE64, Some(options)).bridged
      && PlanRead(ConfigureCorrected(Num(1), Undefined).funzip, 1, Some(options)).bridged
  {
  }
}
