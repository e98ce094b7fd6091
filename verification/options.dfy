/**
 * Conformance of the `funzip` and `funzipPath` options that the patched
 * `yauzl` access methods (`open`, `fromFd`, `fromBuffer`, ...) accept and
 * store on the `ZipFile`.
 */
module Options {
  import opened Wrappers
  import opened JsValues

  const COMPRESS_NONE: nat := 0
  const COMPRESS_DEFLATE: nat := 8
  const COMPRESS_DEFLATE64: nat := 9
  /** What `funzip: true` enables: Deflate64 only. */
  const COMPRESS_ALL: seq<JsValue> := [Num(COMPRESS_DEFLATE64)]
  const COMPRESS_FORCE_ALL: seq<JsValue> := COMPRESS_ALL + [Num(COMPRESS_DEFLATE)]
  const DEFAULT_FUNZIP_PATH: string := "funzip"

  /**
   * The source's conformance of `funzip`: a falsy value enables nothing, a
   * value loosely equal to `true` enables `COMPRESS_ALL`, an array is kept
   * and any other value is wrapped in an array.
   */
  function ConformFunzipAsWritten(funzip: JsValue): (r: seq<JsValue>)
    ensures forall m: SafeInt ::
      Num(m) in r <==>
        || (Truthy(funzip) && LooseEqualsTrue(funzip) && m == COMPRESS_DEFLATE64)
        || (!LooseEqualsTrue(funzip) && funzip.Arr? && Num(m) in funzip.elems)
        || (!LooseEqualsTrue(funzip) && funzip == Num(m) && m != 0)
    ensures !funzip.Arr? ==> |r| <= 1
  {
    if !Truthy(funzip) then []
    else if LooseEqualsTrue(funzip) then COMPRESS_ALL
    else if funzip.Arr? then funzip.elems
    else [funzip]
  }

  /**
   * Conformance with `funzip === true`: the list of enabled methods is
   * empty for a falsy value, `COMPRESS_ALL` for `true`, the array itself
   * for an array, and otherwise the value alone.
   */
  function ConformFunzip(funzip: JsValue): (r: seq<JsValue>)
    ensures forall m: SafeInt ::
      Num(m) in r <==>
        || (funzip == Bool(true) && m == COMPRESS_DEFLATE64)
        || (funzip.Arr? && Num(m) in funzip.elems)
        || (funzip == Num(m) && m != 0)
    ensures !funzip.Arr? ==> |r| <= 1
  {
    if !Truthy(funzip) then []
    else if funzip == Bool(true) then COMPRESS_ALL
    else if funzip.Arr? then funzip.elems
    else [funzip]
  }

  /** `funzipPath ? funzipPath + '' : 'funzip'`. */
  function ConformFunzipPath(funzipPath: JsValue): (r: string)
    ensures !Truthy(funzipPath) ==> r == DEFAULT_FUNZIP_PATH
    ensures funzipPath.Str? && Truthy(funzipPath) ==> r == funzipPath.s
    ensures funzipPath.Num? && Truthy(funzipPath) ==> StringToNumber(r) == Some(funzipPath.n)
    ensures Truthy(funzipPath) && !funzipPath.Arr? ==> r != ""
  {
    if !Truthy(funzipPath) then DEFAULT_FUNZIP_PATH
    else
      match funzipPath
      case Num(n) => DecimalRoundTrip(n); ToJsString(funzipPath)
      case _ => ToJsString(funzipPath)
  }

  /** The options stored on a `ZipFile`. */
  datatype Config = Config(funzip: seq<JsValue>, funzipPath: string)

  /**
   * The `funzip` and `funzipPath` values a `ZipFile` is given: a method is
   * enabled when the option is loosely equal to `true` and the method is 9,
   * or the option is otherwise an array holding it or that non-zero number;
   * a falsy path falls back to "funzip".
   */
  function Configure(funzip: JsValue, funzipPath: JsValue): (c: Config)
    ensures forall m: SafeInt ::
      Num(m) in c.funzip <==>
        || (Truthy(funzip) && LooseEqualsTrue(funzip) && m == COMPRESS_DEFLATE64)
        || (!LooseEqualsTrue(funzip) && funzip.Arr? && Num(m) in funzip.elems)
        || (!LooseEqualsTrue(funzip) && funzip == Num(m) && m != 0)
    ensures !Truthy(funzipPath) ==> c.funzipPath == DEFAULT_FUNZIP_PATH
    ensures funzipPath.Str? && Truthy(funzipPath) ==> c.funzipPath == funzipPath.s
  {
    Config(ConformFunzipAsWritten(funzip), ConformFunzipPath(funzipPath))
  }

  /** The configuration with the strict `funzip === true` test. */
  function ConfigureCorrected(funzip: JsValue, funzipPath: JsValue): (c: Config)
    ensures forall m: SafeInt ::
      Num(m) in c.funzip <==>
        || (funzip == Bool(true) && m == COMPRESS_DEFLATE64)
        || (funzip.Arr? && Num(m) in funzip.elems)
        || (funzip == Num(m) && m != 0)
    ensures !Truthy(funzipPath) ==> c.funzipPath == DEFAULT_FUNZIP_PATH
  {
    Config(ConformFunzip(funzip), ConformFunzipPath(funzipPath))
  }

  lemma JoinSingle(v: JsValue)
    requires !IsNullish(v)
    ensures Join([v]) == ToJsString(v)
  {
  }

  /**
   * Conforming is a fixed point: handing the conformed list back as the
   * option yields the same list.
   */
  lemma ConformFunzipAsWrittenStable(funzip: JsValue)
    ensures ConformFunzipAsWritten(Arr(ConformFunzipAsWritten(funzip))) == ConformFunzipAsWritten(funzip)
  {
    var r := ConformFunzipAsWritten(funzip);
    if !Truthy(funzip) {
      assert Join(r) == "";
      assert StringToNumber("") == Some(0);
    } else if LooseEqualsTrue(funzip) {
      JoinSingle(Num(COMPRESS_DEFLATE64));
      DecimalRoundTrip(COMPRESS_DEFLATE64);
    } else if !funzip.Arr? {
      JoinSingle(funzip);
      if funzip.Num? {
        DecimalRoundTrip(funzip.n);
      }
    }
  }

  lemma ConformFunzipStable(funzip: JsValue)
    ensures ConformFunzip(Arr(ConformFunzip(funzip))) == ConformFunzip(funzip)
  {
  }

  /**
   * The two conformances agree exactly when the value is `true` itself or
   * not loosely equal to `true`.
   */
  lemma ConformAgreement(funzip: JsValue)
    ensures ConformFunzip(funzip) == ConformFunzipAsWritten(funzip)
            <==> funzip == Bool(true) || !LooseEqualsTrue(funzip)
  {
    if LooseEqualsTrue(funzip) && funzip != Bool(true) && funzip.Arr? && funzip.elems == COMPRESS_ALL {
      JoinSingle(Num(COMPRESS_DEFLATE64));
      DecimalRoundTrip(COMPRESS_DEFLATE64);
      assert false;
    }
  }

  /** Asking for method 1 (or "1", or [1]) enables Deflate64 instead. */
  lemma LooselyTrueFunzip()
    ensures ConformFunzipAsWritten(Num(1)) == COMPRESS_ALL
    ensures ConformFunzipAsWritten(Str("1")) == COMPRESS_ALL
    ensures ConformFunzipAsWritten(Arr([Num(1)])) == COMPRESS_ALL
    ensures ConformFunzip(Arr([Num(1)])) == [Num(1)]
  {
  }

  /** Feeding a conformed path back in keeps it, unless it is empty. */
  lemma ConformFunzipPathStable(funzipPath: JsValue)
    ensures var r := ConformFunzipPath(funzipPath);
      ConformFunzipPath(Str(r)) == r <==> r != ""
  {
  }
}
