/** `compile` and `build`: the distribution directory is emptied, then every entry is compiled
    into it in turn, a `.js` entry as a stand-alone bundle and any other entry as a page. */
module Build {
  import opened Outcomes
  import opened Text
  import opened Paths
  import opened FileSystem
  import opened Bundler
  import opened HtmlAssembler

  /** `/\.js$/.test(entry)`. */
  predicate IsScriptEntry(entry: string)
  {
    EndsWith(entry, ".js")
  }

  /** The directory `build` empties and fills: the configured `dist`, resolved against the
      directory of the configuration file, or `dist` under the application root when `dist` is
      absent or empty (an empty string is falsy). */
  function DistDir(config: Config, appRoot: string, configAbsolutePath: string): (r: string)
    ensures |r| > 0 && r[0] == '/'
    ensures config.dist.Some? && config.dist.value != "" ==> r == Resolve(Dirname(configAbsolutePath), config.dist.value)
    ensures config.dist.None? || config.dist.value == "" ==> r == Resolve(appRoot, "./dist/")
  {
    if config.dist.Some? && config.dist.value != "" then Resolve(Dirname(configAbsolutePath), config.dist.value)
    else Resolve(appRoot, "./dist/")
  }

  /** `compile(entry, config, dist)`: the entry is resolved against the working directory and its
      output path against `dist`. A `.js` entry is bundled under its `pr1.modules.` name and the
      code written to the output path; any other entry goes through `compileHTML`. Either way a
      success adds the output file and removes nothing. */
  function Compile(entry: string, config: Config, appRoot: string, cwd: string, dist: string,
                   disk: Disk, digest: string -> string): (r: Result<Disk>)
    ensures r.Ok? ==> Grows(disk, r.value) && Resolve(dist, entry) in r.value.files
    ensures IsScriptEntry(entry) ==>
              var code := Bundle(Resolve(cwd, entry), Resolve(dist, entry), config, Some(OutName(entry)));
              && (r.Err? <==> code.Err?)
              && (r.Err? ==> r.error == code.error)
              && (r.Ok? ==> r.value.files[Resolve(dist, entry)] == code.value)
    ensures !IsScriptEntry(entry) ==>
              r == Page(config, appRoot, Resolve(cwd, entry), Resolve(dist, entry), disk, digest)
  {
    var origin := Resolve(cwd, entry);
    var target := Resolve(dist, entry);
    if IsScriptEntry(entry) then
      match Bundle(origin, target, config, Some(OutName(entry)))
      case Err(e) => Err(e)
      case Ok(code) =>
        WriteGrows(disk, target, code);
        Ok(disk.Write(target, code))
    else Page(config, appRoot, origin, target, disk, digest)
  }

  /** `compile` as one step of a build, on the disk the earlier entries left. */
  function CompileStep(config: Config, appRoot: string, cwd: string, dist: string,
                       digest: string -> string): (Disk, string) -> Result<Disk>
  {
    (disk, entry) => Compile(entry, config, appRoot, cwd, dist, disk, digest)
  }

  /** `if (fs.existsSync(dist)) fs.removeSync(dist)` then `fs.ensureDirSync(dist)`. */
  function Cleared(disk: Disk, dist: string): Disk
  {
    EnsureDir(if disk.Exists(dist) then Remove(disk, dist) else disk, dist)
  }

  /** What `build` leaves on the disk, or the error of the entry that threw. */
  function Built(entries: seq<string>, config: Config, appRoot: string, cwd: string, dist: string,
                 disk: Disk, digest: string -> string): Result<Disk>
  {
    Thread(CompileStep(config, appRoot, cwd, dist, digest), Cleared(disk, dist), entries)
  }

  /** `build(entry, config, configAbsolutePath)`: the distribution directory is emptied, then the
      entries are compiled one after another, each awaited before the next starts, and the first
      one that throws ends the build. */
  method Build(entries: seq<string>, config: Config, appRoot: string, cwd: string, configAbsolutePath: string,
               disk: Disk, digest: string -> string) returns (r: Result<Disk>)
    ensures r == Built(entries, config, appRoot, cwd, DistDir(config, appRoot, configAbsolutePath), disk, digest)
  {
    var dist := DistDir(config, appRoot, configAbsolutePath);
    var d := disk;
    if d.Exists(dist) {
      d := Remove(d, dist);
    }
    d := EnsureDir(d, dist);
    ghost var start := d;
    ghost var step := CompileStep(config, appRoot, cwd, dist, digest);
    var i := 0;
    while i < |entries|
      invariant i <= |entries|
      invariant Thread(step, start, entries[..i]) == Ok(d)
    {
      ThreadStep(step, start, entries, i);
      var next := Compile(entries[i], config, appRoot, cwd, dist, d, digest);
      assert step(d, entries[i]) == next;
      if next.Err? {
        return next;
      }
      d := next.value;
      i := i + 1;
    }
    assert entries[..i] == entries;
    r := Ok(d);
  }

  /** The build starts from an empty distribution directory: what was under it is gone and
      nothing else has changed, on a disk where whatever lies under `dist` sits in a directory
      `dist` itself. */
  lemma BuildStartsEmpty(disk: Disk, dist: string)
    requires disk.Exists(dist) || forall q :: disk.Exists(q) ==> !Under(q, dist)
    ensures var e := Cleared(disk, dist);
            && dist in e.dirs && dist !in e.files
            && (forall q :: e.Exists(q) && q != dist ==> !Under(q, dist))
            && (forall q :: q != dist && !Under(q, dist) ==> (q in e.files <==> q in disk.files) && (q in e.files ==> e.files[q] == disk.files[q]))
  {
    if disk.Exists(dist) {
      FreshDir(disk, dist);
    }
  }

  /** A build that succeeds has written every entry's output under `dist` and removed nothing it
      started from. */
  lemma BuildWritesEveryEntry(entries: seq<string>, config: Config, appRoot: string, cwd: string,
                              dist: string, disk: Disk, digest: string -> string)
    requires Built(entries, config, appRoot, cwd, dist, disk, digest).Ok?
    ensures var after := Built(entries, config, appRoot, cwd, dist, disk, digest).value;
            && Grows(Cleared(disk, dist), after)
            && forall k :: 0 <= k < |entries| ==> Resolve(dist, entries[k]) in after.files
  {
    var step := CompileStep(config, appRoot, cwd, dist, digest);
    forall e: Disk, x: string | step(e, x).Ok?
      ensures Grows(e, step(e, x).value) && Resolve(dist, x) in step(e, x).value.files
    {
      assert step(e, x) == Compile(x, config, appRoot, cwd, dist, e, digest);
    }
    ThreadWrites(step, Cleared(disk, dist), entries, x => Resolve(dist, x));
  }

  /** A build fails exactly when some entry fails on the disk the entries before it left; the
      error it ends with is that of the first such entry, after every entry before it compiled. */
  lemma BuildStopsAtFirstFailure(entries: seq<string>, config: Config, appRoot: string, cwd: string, dist: string,
                                 disk: Disk, digest: string -> string)
    ensures var r := Built(entries, config, appRoot, cwd, dist, disk, digest);
            && (r.Err? <==> exists k :: 0 <= k < |entries| && Built(entries[..k], config, appRoot, cwd, dist, disk, digest).Ok?
                                        && Compile(entries[k], config, appRoot, cwd, dist,
                                                   Built(entries[..k], config, appRoot, cwd, dist, disk, digest).value, digest).Err?)
            && (r.Err? ==> exists k :: 0 <= k < |entries| && Built(entries[..k], config, appRoot, cwd, dist, disk, digest).Ok?
                                        && Compile(entries[k], config, appRoot, cwd, dist,
                                                   Built(entries[..k], config, appRoot, cwd, dist, disk, digest).value, digest) == r)
  {
    var step := CompileStep(config, appRoot, cwd, dist, digest);
    ThreadFailsIff(step, Cleared(disk, dist), entries);
    if Built(entries, config, appRoot, cwd, dist, disk, digest).Err? {
      ThreadFailsAt(step, Cleared(disk, dist), entries);
    }
  }

  /** A build whose entries are all `.js` files can fail only in the rollup, Babel and UglifyJS
      chain, never on the disk. */
  lemma ScriptBuildFailsOnlyInBundle(entries: seq<string>, config: Config, appRoot: string, cwd: string, dist: string,
                                       disk: Disk, digest: string -> string)
    requires forall k :: 0 <= k < |entries| ==> IsScriptEntry(entries[k])
    ensures var r := Built(entries, config, appRoot, cwd, dist, disk, digest);
            r.Err? ==> BundleError(r.error)
  {
    var r := Built(entries, config, appRoot, cwd, dist, disk, digest);
    if r.Err? {
      ThreadFailsAt(CompileStep(config, appRoot, cwd, dist, digest), Cleared(disk, dist), entries);
    }
  }

  /** A page entry of a configuration with vendors never fails for want of a `src`/`href`
      reference: the vendor `<script>` lines always give the hash pass one. */
  lemma PageEntryHasReference(entry: string, config: Config, appRoot: string, cwd: string, dist: string,
                              disk: Disk, digest: string -> string)
    requires !IsScriptEntry(entry) && config.vendor != []
    ensures Compile(entry, config, appRoot, cwd, dist, disk, digest) != Err(NoReferences)
  {
    PageHasReference(config, appRoot, Resolve(cwd, entry), Resolve(dist, entry), disk, digest);
  }

  /** Without Babel and UglifyJS, a `.js` entry's output file holds what rollup generates for it
      under its `pr1.modules.` name, with every vendor left external; a rollup error ends it. */
  lemma ScriptEntryOutput(entry: string, config: Config, appRoot: string, cwd: string, dist: string,
                          disk: Disk, digest: string -> string)
    requires IsScriptEntry(entry) && config.rollup.Some? && config.babel.None? && config.uglify.None?
    ensures var opts := RollupOptions(Resolve(cwd, entry), Resolve(dist, entry), External(config.vendor), Some(OutName(entry)));
            Compile(entry, config, appRoot, cwd, dist, disk, digest)
              == match config.rollup.value(opts)
                 case Generated(code) => Ok(disk.Write(Resolve(dist, entry), code))
                 case RollupError(message) => Err(RollupFailed(message))
  {
  }
}
