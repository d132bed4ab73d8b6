/** `bundle` and the pure derivations around it: the list of modules rollup leaves external,
    the global name of a stand-alone `.js` bundle, and the rollup, Babel and UglifyJS chain. */
module Bundler {
  import opened Outcomes
  import opened Text
  import opened Paths

  /** One `config.vendor` entry `[dev, prod]`: the development build, named as rollup imports
      it, and the production build shipped next to the page, when there is one. */
  datatype Vendor = Vendor(dev: string, prod: Option<string>)
  {
    /** `f[1] || f[0]`: an absent or empty production path falls back to the development one. */
    function Shipped(): (r: string)
      ensures r == dev || (prod.Some? && r == prod.value && r != "")
    {
      if prod.Some? && prod.value != "" then prod.value else dev
    }
  }

  /** What `rollup.rollup` followed by `generate` gives: the code of the first output chunk, or
      the error either of them rejects with (a missing module, a syntax error, a plugin error). */
  datatype Generated = Generated(code: string) | RollupError(message: string)

  /** What `babel.transform` gives: the transformed code, or the error it throws. */
  datatype Transformed = Transformed(code: string) | BabelError(message: string)

  /** What `uglify.minify` gives back: the minified code, or an `error` result. */
  datatype Minified = Minified(code: string) | MinifyError(message: string)

  /** The options `bundle` hands to rollup. The format (`iife`), the `context` (`window`), the
      plugins and the globals are fixed by the configuration and are not part of the model. */
  datatype RollupOptions = RollupOptions(input: string, file: string, external: seq<string>, name: Option<string>)

  /** The parts of the configuration file that the build reads. The three foreign tools appear as
      the transformations they perform, each of which may fail: `rollup` is present when
      `rollupConfig` is and stands for `rollup.rollup` plus `generate` with its plugins and
      globals, `babel` is present when `babelConfig` is, and `uglify` when `uglifyConfig` is. An
      absent `vendor` or `static` list is the empty list. */
  datatype Config = Config(
    vendor: seq<Vendor>,
    statics: seq<string>,
    dist: Option<string>,
    rollup: Option<RollupOptions -> Generated>,
    babel: Option<string -> Transformed>,
    uglify: Option<string -> Minified>)

  /** The errors the rollup, Babel and UglifyJS chain throws. */
  predicate BundleError(e: Error)
  {
    e.NoRollupConfig? || e.RollupFailed? || e.BabelFailed? || e.MinifyFailed?
  }

  /** `(config.vendor || []).map(i => i[0])`: rollup leaves every vendor's development module out
      of the bundle, in declaration order. */
  function External(vendors: seq<Vendor>): (r: seq<string>)
    ensures |r| == |vendors|
    ensures forall k :: 0 <= k < |vendors| ==> r[k] == vendors[k].dev
  {
    seq(|vendors|, k requires 0 <= k < |vendors| => vendors[k].dev)
  }

  const ModulesPrefix := "pr1.modules."

  /** The global name of the bundle of a `.js` entry: the prefix, then the entry's base name with
      every `.` turned into `_`. */
  function OutName(entry: string): (r: string)
    ensures |r| == |ModulesPrefix| + |Basename(entry)| && r[..|ModulesPrefix|] == ModulesPrefix
    ensures forall k :: 0 <= k < |Basename(entry)| ==>
              r[|ModulesPrefix| + k] == (if Basename(entry)[k] == '.' then '_' else Basename(entry)[k])
  {
    ModulesPrefix + ReplaceAllChar(Basename(entry), '.', '_')
  }

  /** The name has exactly the two dots of `pr1.modules.`, so the IIFE assigns a single property
      of the `pr1.modules` namespace whatever the entry is called. */
  lemma OutNameDots(entry: string)
    ensures var r := OutName(entry);
            forall k :: 0 <= k < |r| ==> (r[k] == '.' <==> k == 3 || k == 11)
  {
    var r := OutName(entry);
    var b := Basename(entry);
    forall k | 0 <= k < |r|
      ensures r[k] == '.' <==> k == 3 || k == 11
    {
      if k < |ModulesPrefix| {
        assert r[k] == ModulesPrefix[k];
      } else {
        assert r[k] == (if b[k - 12] == '.' then '_' else b[k - 12]);
      }
    }
  }

  /** The code after Babel, when a Babel configuration is given. */
  function Transpiled(config: Config, code: string): Transformed
  {
    if config.babel.Some? then config.babel.value(code) else Transformed(code)
  }

  /** The code after UglifyJS, when an UglifyJS configuration is given; its `error` is rethrown. */
  function Minify(config: Config, code: string): Result<string>
  {
    if config.uglify.None? then Ok(code)
    else
      match config.uglify.value(code)
      case MinifyError(message) => Err(MinifyFailed(message))
      case Minified(minified) => Ok(minified)
  }

  /** The options of one `bundle` call: the vendors' development modules stay external. */
  function Options(input: string, out: string, config: Config, name: Option<string>): RollupOptions
  {
    RollupOptions(input, out, External(config.vendor), name)
  }

  /** `bundle(input, out, config, outName)`: rollup, then Babel, then UglifyJS. Reading
      `config.rollupConfig.plugins` throws when there is no rollup configuration, and each tool's
      error ends the bundle. The `fs.outputFileSync(out, code)` that ends it is a `Disk.Write`
      at each caller. */
  function Bundle(input: string, out: string, config: Config, name: Option<string>): (r: Result<string>)
    ensures r.Err? ==> BundleError(r.error)
    ensures config.rollup.None? ==> r == Err(NoRollupConfig)
    ensures r.Ok? ==> config.rollup.Some? && config.rollup.value(Options(input, out, config, name)).Generated?
    ensures r.Err? && r.error.BabelFailed? ==>
              config.babel.Some? && config.rollup.Some? && config.rollup.value(Options(input, out, config, name)).Generated?
    ensures r.Err? && r.error.MinifyFailed? ==>
              && config.uglify.Some? && config.rollup.Some?
              && config.rollup.value(Options(input, out, config, name)).Generated?
              && Transpiled(config, config.rollup.value(Options(input, out, config, name)).code).Transformed?
    ensures config.rollup.Some? && config.rollup.value(Options(input, out, config, name)).Generated?
            && Transpiled(config, config.rollup.value(Options(input, out, config, name)).code).Transformed?
            && config.uglify.None? ==>
              r == Ok(Transpiled(config, config.rollup.value(Options(input, out, config, name)).code).code)
    ensures config.rollup.Some? && config.babel.None? && config.uglify.None? ==>
              match config.rollup.value(Options(input, out, config, name))
              case Generated(code) => r == Ok(code)
              case RollupError(message) => r == Err(RollupFailed(message))
  {
    match config.rollup
    case None => Err(NoRollupConfig)
    case Some(rollup) =>
      match rollup(Options(input, out, config, name))
      case RollupError(message) => Err(RollupFailed(message))
      case Generated(code) =>
        match Transpiled(config, code)
        case BabelError(message) => Err(BabelFailed(message))
        case Transformed(js) => Minify(config, js)
  }
}
