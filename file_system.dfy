/** The file system as the build sees it through `fs` and `fs-extra`: files with their contents,
    and directories. Paths are absolute and rendered as `path.resolve` renders them, so a
    directory's entries are exactly the paths that start with the directory and a `/`. */
module FileSystem {
  import opened Outcomes
  import opened Text

  datatype Disk = Disk(files: map<string, string>, dirs: set<string>)
  {
    /** `fs.existsSync(p)`. */
    predicate Exists(p: string)
    {
      p in files || p in dirs
    }

    /** `fs.outputFileSync(p, content)` and `fs.writeFileSync(p, content)`. */
    function Write(p: string, content: string): Disk
    {
      Disk(files[p := content], dirs)
    }
  }

  /** `q` lies inside directory `p`. */
  predicate Under(q: string, p: string)
  {
    StartsWith(q, p + "/")
  }

  /** Where the copy of `q`, which lies inside `src`, lands when `src` is copied to `dest`. */
  function Moved(q: string, src: string, dest: string): string
    requires Under(q, src)
  {
    dest + q[|src|..]
  }

  /** Two paths inside `src` land on the same path only when they are the same path. */
  lemma MovedInjective(src: string, dest: string)
    ensures forall q1, q2 :: Under(q1, src) && Under(q2, src) && Moved(q1, src, dest) == Moved(q2, src, dest) ==> q1 == q2
  {
    forall q1, q2 | Under(q1, src) && Under(q2, src) && Moved(q1, src, dest) == Moved(q2, src, dest)
      ensures q1 == q2
    {
      assert q1[|src|..] == Moved(q1, src, dest)[|dest|..];
      assert q2[|src|..] == Moved(q2, src, dest)[|dest|..];
      assert q1 == q1[..|src|] + q1[|src|..];
      assert q2 == q2[..|src|] + q2[|src|..];
      assert q1[..|src|] == (src + "/")[..|src|] == q2[..|src|];
    }
  }

  /** A recursive copy of directory `src` to `dest`: `dest` and a copy of everything inside
      `src` are added, overwriting what was there. */
  function CopyTree(d: Disk, src: string, dest: string): Disk
  {
    MovedInjective(src, dest);
    Disk(d.files + map q | q in d.files && Under(q, src) :: Moved(q, src, dest) := d.files[q],
         d.dirs + {dest} + set q | q in d.dirs && Under(q, src) :: Moved(q, src, dest))
  }

  /** `fs.copySync(src, dest)`: a missing source throws; a file is copied with its contents and a
      directory with everything inside it. */
  function CopyPath(d: Disk, src: string, dest: string): (r: Result<Disk>)
    ensures r.Err? <==> !d.Exists(src)
    ensures r.Err? ==> r.error == MissingFile(src)
    ensures r.Ok? ==> r.value.Exists(dest)
    ensures r.Ok? && src in d.files ==> dest in r.value.files && r.value.files[dest] == d.files[src]
    ensures r.Ok? && src !in d.files ==> dest in r.value.dirs
  {
    if !d.Exists(src) then Err(MissingFile(src))
    else if src in d.files then Ok(d.Write(dest, d.files[src]))
    else Ok(CopyTree(d, src, dest))
  }

  /** A copied directory's files all land inside the destination, with their contents. */
  lemma CopyTreeContents(d: Disk, src: string, dest: string)
    ensures forall q :: q in d.files && Under(q, src) ==>
              Moved(q, src, dest) in CopyTree(d, src, dest).files
              && CopyTree(d, src, dest).files[Moved(q, src, dest)] == d.files[q]
  {
    MovedInjective(src, dest);
  }

  /** Every file and directory of `d` is still there, perhaps with other contents, on `e`. */
  predicate Grows(d: Disk, e: Disk)
  {
    d.files.Keys <= e.files.Keys && d.dirs <= e.dirs
  }

  /** Writing and copying never remove a path. */
  lemma WriteGrows(d: Disk, p: string, content: string)
    ensures Grows(d, d.Write(p, content)) && d.Write(p, content).files[p] == content
  {
  }

  lemma CopyPathGrows(d: Disk, src: string, dest: string)
    requires CopyPath(d, src, dest).Ok?
    ensures Grows(d, CopyPath(d, src, dest).value)
  {
  }

  /** One copy of a list of copies. */
  function CopyStep(d: Disk, copy: (string, string)): Result<Disk>
  {
    CopyPath(d, copy.0, copy.1)
  }

  /** `forEach(f => fs.copySync(...))` over a list of (source, destination) pairs: the copies run
      in order on the disk the earlier ones left, and the first missing source throws. */
  function CopyEach(d: Disk, copies: seq<(string, string)>): Result<Disk>
  {
    Thread(CopyStep, d, copies)
  }

  /** A run of copies fails only on a missing source, and one that was already missing before
      the copies started, since copies never remove a path. */
  lemma {:induction false} CopyEachFails(d: Disk, copies: seq<(string, string)>)
    requires CopyEach(d, copies).Err?
    decreases |copies|
    ensures exists k :: 0 <= k < |copies| && CopyEach(d, copies).error == MissingFile(copies[k].0) && !d.Exists(copies[k].0)
  {
    var n := |copies| - 1;
    var init := copies[..n];
    assert CopyEach(d, copies) == match CopyEach(d, init) case Err(e) => Err(e) case Ok(t) => CopyStep(t, copies[n]);
    if CopyEach(d, init).Err? {
      CopyEachFails(d, init);
      var k :| 0 <= k < |init| && CopyEach(d, init).error == MissingFile(init[k].0) && !d.Exists(init[k].0);
      assert init[k] == copies[k];
    } else {
      CopyEachGrows(d, init);
    }
  }

  /** A run of copies that succeeds keeps every path and holds every destination. */
  lemma {:induction false} CopyEachGrows(d: Disk, copies: seq<(string, string)>)
    requires CopyEach(d, copies).Ok?
    decreases |copies|
    ensures Grows(d, CopyEach(d, copies).value)
    ensures forall k :: 0 <= k < |copies| ==> CopyEach(d, copies).value.Exists(copies[k].1)
  {
    if copies != [] {
      var n := |copies| - 1;
      var init := copies[..n];
      assert CopyEach(d, copies) == match CopyEach(d, init) case Err(e) => Err(e) case Ok(t) => CopyStep(t, copies[n]);
      CopyEachGrows(d, init);
      CopyPathGrows(CopyEach(d, init).value, copies[n].0, copies[n].1);
      forall k | 0 <= k < n
        ensures CopyEach(d, copies).value.Exists(copies[k].1)
      {
        assert init[k] == copies[k];
      }
    }
  }

  /** When every source is there at the start, the whole run of copies succeeds. */
  lemma CopyEachSucceeds(d: Disk, copies: seq<(string, string)>)
    requires forall k :: 0 <= k < |copies| ==> d.Exists(copies[k].0)
    ensures CopyEach(d, copies).Ok?
  {
    if CopyEach(d, copies).Err? {
      CopyEachFails(d, copies);
    }
  }

  /** `fs.readFileSync(p)`: a file's contents; a directory throws `EISDIR`, a missing path
      `ENOENT`. */
  function ReadFile(d: Disk, p: string): (r: Result<string>)
    ensures r.Ok? <==> p in d.files
    ensures r.Ok? ==> r.value == d.files[p]
    ensures r.Err? ==> r.error == (if p in d.dirs then ReadDirectory(p) else MissingFile(p))
  {
    if p in d.files then Ok(d.files[p])
    else if p in d.dirs then Err(ReadDirectory(p))
    else Err(MissingFile(p))
  }

  /** `fs.removeSync(p)`: `p` and everything inside it. */
  function Remove(d: Disk, p: string): Disk
  {
    Disk(map q | q in d.files && q != p && !Under(q, p) :: d.files[q],
         set q | q in d.dirs && q != p && !Under(q, p))
  }

  /** `fs.ensureDirSync(p)`. */
  function EnsureDir(d: Disk, p: string): Disk
  {
    Disk(d.files, d.dirs + {p})
  }

  /** After `removeSync` and `ensureDirSync` the directory exists and is empty, and nothing
      outside it has changed. */
  lemma FreshDir(d: Disk, p: string)
    ensures var e := EnsureDir(Remove(d, p), p);
            && p in e.dirs && p !in e.files
            && (forall q :: e.Exists(q) && q != p ==> !Under(q, p))
            && (forall q :: q != p && !Under(q, p) ==> (q in e.files <==> q in d.files) && (q in e.files ==> e.files[q] == d.files[q]))
  {
  }

  /** A run of steps that each keep every path and write their own target keeps every path and
      holds every step's target at the end. */
  lemma {:induction false} ThreadWrites<A>(f: (Disk, A) -> Result<Disk>, d: Disk, xs: seq<A>, target: A -> string)
    requires forall e: Disk, x: A :: f(e, x).Ok? ==> Grows(e, f(e, x).value) && target(x) in f(e, x).value.files
    requires Thread(f, d, xs).Ok?
    decreases |xs|
    ensures Grows(d, Thread(f, d, xs).value)
    ensures forall k :: 0 <= k < |xs| ==> target(xs[k]) in Thread(f, d, xs).value.files
  {
    if xs != [] {
      var n := |xs| - 1;
      var init := xs[..n];
      assert Thread(f, d, xs) == f(Thread(f, d, init).value, xs[n]);
      ThreadWrites(f, d, init, target);
      forall k | 0 <= k < n
        ensures target(xs[k]) in Thread(f, d, xs).value.files
      {
        assert init[k] == xs[k];
      }
    }
  }
}
