/** `addSrcHash`: every `href=` or `src=` reference of a page that names a file under the
    output directory gets a query parameter holding a short digest of that file. */
module SrcHash {
  import opened Outcomes
  import opened Text
  import opened Paths
  import opened RefScanner
  import opened FileSystem

  /** One entry of the `result` list: the token as matched and the token to put in its place. */
  datatype Rewrite = Rewrite(src: string, md5Src: string)

  /** `s.replace(/^("|')/, '')`, the optional quote after `=`. */
  function DropLeadingQuote(s: string): string
  {
    if |s| > 0 && IsQuote(s[0]) then s[1..] else s
  }

  /** `s.replace(/("|')$/, '')`. */
  function DropTrailingQuote(s: string): string
  {
    if |s| > 0 && IsQuote(s[|s| - 1]) then s[..|s| - 1] else s
  }

  /** `tok.replace(/^(href|src)=/, '')`. */
  function DropName(tok: string): string
  {
    if StartsWith(tok, "href=") then tok[5..]
    else if StartsWith(tok, "src=") then tok[4..]
    else tok
  }

  /** The value of a token: the name, `=` and an opening quote come off the front, a quote comes
      off the end. A leading quote is dropped only after a name. */
  function SourceOf(tok: string): string
  {
    var rest := DropName(tok);
    DropTrailingQuote(if rest != tok then DropLeadingQuote(rest) else rest)
  }

  lemma DropNameRef(m: Ref)
    requires m.name == "href" || m.name == "src"
    ensures DropName(m.Text()) == m.open + m.value + m.close
  {
    var tok := m.Text();
    var body := m.open + m.value + m.close;
    assert tok == m.name + "=" + body;
    if m.name == "href" {
      assert tok[..5] == "href=" && tok[5..] == body;
    } else {
      assert tok[0] == 's';
      assert tok[..4] == "src=" && tok[4..] == body;
    }
  }

  /** The value of a matched reference is what the pattern captured as its value. */
  lemma SourceOfRef(m: Ref)
    requires m.WellFormed()
    ensures SourceOf(m.Text()) == m.value
  {
    DropNameRef(m);
    var body := m.open + m.value + m.close;
    assert body != m.Text();
    var rest := m.value + m.close;
    assert DropLeadingQuote(body) == rest by {
      if m.open != "" {
        assert body[1..] == rest;
      } else {
        assert body == rest && !IsQuote(m.value[0]);
      }
    }
    if m.close != "" {
      assert rest[..|m.value|] == m.value;
    } else {
      assert !IsQuote(m.value[|m.value| - 1]);
    }
  }

  /** The file a value names: the part before any `?`, resolved against the output directory. */
  function FileOf(distDir: string, src: string): string
  {
    Resolve(distDir, BeforeFirst(src, '?'))
  }

  /** `&` when the value already has a query string, `?` otherwise. */
  function Separator(src: string): (r: string)
    ensures r == "&" <==> '?' in src
    ensures r == "?" <==> '?' !in src
  {
    if '?' in src then "&" else "?"
  }

  /** The token with `suffix` put right after its value, in front of a closing quote. */
  function RewriteToken(tok: string, suffix: string): string
  {
    if |tok| > 0 && IsQuote(tok[|tok| - 1]) then tok[..|tok| - 1] + suffix + [tok[|tok| - 1]]
    else tok + suffix
  }

  /** On a matched reference the suffix lands right after the value. */
  lemma RewriteTokenRef(m: Ref, suffix: string)
    requires m.WellFormed()
    ensures RewriteToken(m.Text(), suffix) == m.name + "=" + m.open + m.value + suffix + m.close
  {
    var tok := m.Text();
    var front := m.name + "=" + m.open + m.value;
    assert tok == front + m.close;
    if m.close != "" {
      assert tok[..|tok| - 1] == front && [tok[|tok| - 1]] == m.close;
    } else {
      assert tok[|tok| - 1] == m.value[|m.value| - 1];
    }
  }

  /** The token rewrite as the code writes it, `i.replace(src, src + suffix)`: the first place the
      value occurs inside the token gets the suffix, which can be inside `href` or `src` itself. */
  function RewriteTokenAsWritten(tok: string, src: string, suffix: string): string
  {
    ReplaceFirst(tok, src, src + suffix)
  }

  /** The two rewrites agree whenever the value does not occur in the token before its own place. */
  lemma RewriteTokenAgrees(m: Ref, suffix: string)
    requires m.WellFormed()
    requires FirstAt(m.Text(), m.value, |m.name| + 1 + |m.open|)
    ensures RewriteTokenAsWritten(m.Text(), m.value, suffix) == RewriteToken(m.Text(), suffix)
  {
    var tok := m.Text();
    var front := m.name + "=" + m.open;
    var k := |front|;
    assert tok == front + m.value + m.close;
    assert tok[..k] == front;
    assert tok[k + |m.value|..] == m.close;
    ReplaceFirstAt(tok, m.value, m.value + suffix, k);
    assert ReplaceFirst(tok, m.value, m.value + suffix) == front + (m.value + suffix) + m.close;
    RewriteTokenRef(m, suffix);
    Regroup(front, m.value, suffix, m.close);
  }

  /** `src=s` names file `s`, but the code puts the suffix after the `s` of `src`. */
  lemma RewriteTokenAsWrittenMisplaces()
    ensures RewriteTokenAsWritten("src=s", "s", "?h") == "s?hrc=s"
    ensures RewriteToken("src=s", "?h") == "src=s?h"
  {
    assert FirstAt("src=s", "s", 0) by {
      assert "src=s"[0..1] == "s";
    }
  }

  /** A token is left alone: an absolute URL, or a value naming nothing on disk. */
  predicate Ineligible(tok: string, distDir: string, disk: Disk)
  {
    var src := SourceOf(tok);
    StartsWith(src, "http") || !disk.Exists(FileOf(distDir, src))
  }

  /** The token names a directory that the pass will try to read. */
  predicate ReadsDirectory(tok: string, distDir: string, disk: Disk)
  {
    var src := SourceOf(tok);
    var file := FileOf(distDir, src);
    !StartsWith(src, "http") && file in disk.dirs && file !in disk.files
  }

  /** What the `map` callback gives for one token: nothing for an absolute URL or a missing file,
      the rewrite for a file, and the `EISDIR` failure of `readFileSync` for a directory. */
  function RewriteFor(tok: string, distDir: string, disk: Disk, digest: string -> string): (r: Result<Option<Rewrite>>)
    ensures r.Err? <==> ReadsDirectory(tok, distDir, disk)
    ensures r.Err? ==> r.error == ReadDirectory(FileOf(distDir, SourceOf(tok)))
    ensures r == Ok(None) <==> Ineligible(tok, distDir, disk)
    ensures r.Ok? && r.value.Some? ==>
              var src := SourceOf(tok);
              && FileOf(distDir, src) in disk.files
              && r.value.value == Rewrite(tok, RewriteToken(tok, Separator(src) + digest(disk.files[FileOf(distDir, src)])))
  {
    var src := SourceOf(tok);
    var file := FileOf(distDir, src);
    if StartsWith(src, "http") || !disk.Exists(file) then Ok(None)
    else if file !in disk.files then Err(ReadDirectory(file))
    else Ok(Some(Rewrite(tok, RewriteToken(tok, Separator(src) + digest(disk.files[file])))))
  }

  /** The `map` callback over a fixed output directory, disk and digest. */
  function Callback(distDir: string, disk: Disk, digest: string -> string): string -> Result<Option<Rewrite>>
  {
    tok => RewriteFor(tok, distDir, disk, digest)
  }

  /** `result.forEach(...)`: each rewrite replaces the first occurrence of its token in the page
      as it stands after the rewrites before it. */
  function ApplyAll(html: string, rws: seq<Option<Rewrite>>): string
    decreases |rws|
  {
    if rws == [] then html
    else
      var h := ApplyAll(html, rws[..|rws| - 1]);
      match rws[|rws| - 1]
      case None => h
      case Some(rw) => ReplaceFirst(h, rw.src, rw.md5Src)
  }

  /** One more entry of the `forEach` loop. */
  lemma ApplyAllStep(html: string, rws: seq<Option<Rewrite>>, j: nat)
    requires j < |rws|
    ensures ApplyAll(html, rws[..j + 1])
              == match rws[j]
                 case None => ApplyAll(html, rws[..j])
                 case Some(rw) => ReplaceFirst(ApplyAll(html, rws[..j]), rw.src, rw.md5Src)
  {
    assert rws[..j + 1][..j] == rws[..j];
  }

  /** The pass over the tokens `txt.match` returned. An empty list stands for `null`, and
      `null.map` throws. */
  function HashTokens(txt: string, toks: seq<string>, distDir: string, disk: Disk, digest: string -> string): Result<string>
  {
    if toks == [] then Err(NoReferences)
    else
      match MapOrFail(Callback(distDir, disk, digest), toks)
      case Err(e) => Err(e)
      case Ok(rws) => Ok(ApplyAll(txt, rws))
  }

  /** The whole pass. */
  function HashPass(txt: string, distDir: string, disk: Disk, digest: string -> string): Result<string>
  {
    HashTokens(txt, Texts(Scan(txt)), distDir, disk, digest)
  }

  /** The pass as the code runs it: `srcs.map(...)`, then the `forEach` loop that rewrites `html`. */
  method AddSrcHash(txt: string, distDir: string, disk: Disk, digest: string -> string) returns (r: Result<string>)
    ensures r == HashPass(txt, distDir, disk, digest)
  {
    var srcs := Texts(Scan(txt));
    assert HashPass(txt, distDir, disk, digest) == HashTokens(txt, srcs, distDir, disk, digest);
    if |srcs| == 0 {
      return Err(NoReferences);
    }
    var mapped := MapOrFail(Callback(distDir, disk, digest), srcs);
    if mapped.Err? {
      return Err(mapped.error);
    }
    var result := mapped.value;
    var html := txt;
    var j := 0;
    while j < |result|
      invariant 0 <= j <= |result|
      invariant html == ApplyAll(txt, result[..j])
    {
      ApplyAllStep(txt, result, j);
      if result[j].Some? {
        html := ReplaceFirst(html, result[j].value.src, result[j].value.md5Src);
      }
      j := j + 1;
    }
    assert result[..j] == result;
    return Ok(html);
  }

  /** A page the pattern does not match anywhere makes the pass fail, and only such a page makes
      it fail that way. */
  lemma HashPassNoReferencesIff(txt: string, distDir: string, disk: Disk, digest: string -> string)
    ensures HashPass(txt, distDir, disk, digest) == Err(NoReferences) <==> NoMatchIn(MatchAt, txt, 0, |txt|)
  {
    MatchAtSticky();
    ScanEmptyIff(MatchAt, txt, 0);
    var toks := Texts(Scan(txt));
    var f := Callback(distDir, disk, digest);
    if toks != [] && MapOrFail(f, toks).Err? {
      MapOrFailFailsIff(f, toks);
    }
  }

  /** A page with references fails exactly when one of them names a directory, and then on the
      first such one. */
  lemma HashPassReadsDirectoryIff(txt: string, distDir: string, disk: Disk, digest: string -> string)
    requires Scan(txt) != []
    ensures var toks := Texts(Scan(txt));
            HashPass(txt, distDir, disk, digest).Err? <==> exists k :: 0 <= k < |toks| && ReadsDirectory(toks[k], distDir, disk)
    ensures var toks := Texts(Scan(txt));
            HashPass(txt, distDir, disk, digest).Err? ==>
              exists k :: 0 <= k < |toks| && ReadsDirectory(toks[k], distDir, disk)
                && HashPass(txt, distDir, disk, digest).error == ReadDirectory(FileOf(distDir, SourceOf(toks[k])))
                && forall j :: 0 <= j < k ==> !ReadsDirectory(toks[j], distDir, disk)
  {
    var toks := Texts(Scan(txt));
    var f := Callback(distDir, disk, digest);
    MapOrFailFailsIff(f, toks);
    if HashPass(txt, distDir, disk, digest).Err? {
      var k :| 0 <= k < |toks| && f(toks[k]) == Err(MapOrFail(f, toks).error) && forall j :: 0 <= j < k ==> f(toks[j]).Ok?;
      assert ReadsDirectory(toks[k], distDir, disk);
    }
  }

  /** No rewrite leaves the page as it was: `ApplyAll` of absent entries only. */
  lemma {:induction false} ApplyNothing(html: string, rws: seq<Option<Rewrite>>)
    requires forall k :: 0 <= k < |rws| ==> rws[k].None?
    decreases |rws|
    ensures ApplyAll(html, rws) == html
  {
    if rws != [] {
      ApplyNothing(html, rws[..|rws| - 1]);
    }
  }

  /** A page whose references are all absolute URLs or missing files comes back unchanged. */
  lemma HashPassKeepsPage(txt: string, distDir: string, disk: Disk, digest: string -> string)
    requires Scan(txt) != []
    requires forall k :: 0 <= k < |Scan(txt)| ==> Ineligible(Scan(txt)[k].Text(), distDir, disk)
    ensures HashPass(txt, distDir, disk, digest) == Ok(txt)
  {
    var toks := Texts(Scan(txt));
    var f := Callback(distDir, disk, digest);
    MapOrFailFailsIff(f, toks);
    MapOrFailEntries(f, toks);
    ApplyNothing(txt, MapOrFail(f, toks).value);
  }

  /** A well-formed reference whose text stands at `j` is a match there. */
  lemma TextMatchesAt(t: string, m: Ref, j: nat)
    requires m.WellFormed() && OccursAt(t, m.Text(), j)
    ensures MatchAt(t, j).Some?
  {
    var pre := m.name + "=";
    var rest := m.open + m.value + m.close;
    var p := j + |pre|;
    assert m.Text() == pre + rest;
    OccursSplit(t, pre, rest, j);
    assert IsValueChar(m.value[0]);
    var w := t[p..p + |rest|];
    assert w == rest;
    assert ValueStartsAt(t, p) by {
      if m.open == "" {
        assert t[p] == w[0] == m.value[0];
      } else {
        assert t[p] == w[0] == m.open[0];
        assert t[p + 1] == w[1] == m.value[0];
      }
    }
    if m.name == "href" {
      assert OccursAt(t, "href=", j) && ValueStartsAt(t, j + 5);
    } else {
      assert OccursAt(t, "src=", j) && ValueStartsAt(t, j + 4);
    }
    MatchAtIff(t, j);
  }

  /** The first token's text first occurs where that token was matched, so the first rewrite of
      the `forEach` lands on it. */
  lemma FirstTokenFirstOccurrence(t: string)
    requires Scan(t) != []
    ensures Scan(t)[0].WellFormed()
    ensures FirstAt(t, Scan(t)[0].Text(), Scan(t)[0].start)
  {
    MatchAtSticky();
    var m := Scan(t)[0];
    ScanSound(MatchAt, t, 0);
    ScanLeftmost(MatchAt, t, 0);
    MatchAtOccurs(t, m.start);
    MatchAtWellFormed(t, m.start);
    forall j | 0 <= j < m.start
      ensures !OccursAt(t, m.Text(), j)
    {
      if OccursAt(t, m.Text(), j) {
        TextMatchesAt(t, m, j);
      }
    }
  }

  /** One eligible token: the pass replaces its first occurrence by the rewritten token. */
  lemma HashOneToken(txt: string, tok: string, distDir: string, disk: Disk, digest: string -> string)
    requires !Ineligible(tok, distDir, disk) && FileOf(distDir, SourceOf(tok)) in disk.files
    ensures var src := SourceOf(tok);
            var suffix := Separator(src) + digest(disk.files[FileOf(distDir, src)]);
            HashTokens(txt, [tok], distDir, disk, digest) == Ok(ReplaceFirst(txt, tok, RewriteToken(tok, suffix)))
  {
    var f := Callback(distDir, disk, digest);
    assert f(tok) == RewriteFor(tok, distDir, disk, digest);
    MapOrFailSingle(f, tok);
    var rws := [f(tok).value];
    assert ApplyAll(txt, rws) == ReplaceFirst(ApplyAll(txt, []), rws[0].value.src, rws[0].value.md5Src) by {
      assert rws[..0] == [];
    }
  }

  /** A reference that first occurs at its own start and names a file gets `?` or `&` and the
      file's digest right after its value. */
  lemma HashOneRef(txt: string, m: Ref, distDir: string, disk: Disk, digest: string -> string)
    requires m.WellFormed() && FirstAt(txt, m.Text(), m.start)
    requires !Ineligible(m.Text(), distDir, disk) && FileOf(distDir, m.value) in disk.files
    ensures var suffix := Separator(m.value) + digest(disk.files[FileOf(distDir, m.value)]);
            && m.ValueEnd() <= |txt|
            && HashTokens(txt, [m.Text()], distDir, disk, digest) == Ok(txt[..m.ValueEnd()] + suffix + txt[m.ValueEnd()..])
  {
    SourceOfRef(m);
    var tok := m.Text();
    var suffix := Separator(m.value) + digest(disk.files[FileOf(distDir, m.value)]);
    HashOneToken(txt, tok, distDir, disk, digest);
    RewriteTokenRef(m, suffix);
    var front := m.name + "=" + m.open + m.value;
    assert tok == front + m.close;
    assert m.ValueEnd() == m.start + |front| by {
      assert |m.name + "="| == |m.name| + 1;
    }
    ReplaceWithin(txt, m.start, front, suffix, m.close, m.ValueEnd());
  }

  /** A page with one reference to a file gets `?` or `&` and the file's digest right after the
      value, and nothing else changes. */
  lemma HashPassSingleReference(txt: string, distDir: string, disk: Disk, digest: string -> string)
    requires |Scan(txt)| == 1
    requires !Ineligible(Scan(txt)[0].Text(), distDir, disk)
    requires FileOf(distDir, Scan(txt)[0].value) in disk.files
    ensures var m := Scan(txt)[0];
            var suffix := Separator(m.value) + digest(disk.files[FileOf(distDir, m.value)]);
            && m.ValueEnd() <= |txt|
            && HashPass(txt, distDir, disk, digest) == Ok(txt[..m.ValueEnd()] + suffix + txt[m.ValueEnd()..])
  {
    var m := Scan(txt)[0];
    FirstTokenFirstOccurrence(txt);
    assert Texts(Scan(txt)) == [m.Text()];
    HashOneRef(txt, m, distDir, disk, digest);
  }

  /** Every token of the scan is a well-formed reference. */
  lemma ScanWellFormed(txt: string, j: nat)
    requires j < |Scan(txt)|
    ensures Scan(txt)[j].WellFormed()
  {
    MatchAtSticky();
    ScanSound(MatchAt, txt, 0);
    MatchAtWellFormed(txt, Scan(txt)[j].start);
  }

  /** What entry `j` of the `forEach` does with its token `m`. A token left alone (an absolute
      URL or a missing file) leaves the page as the entries before it left it. Any other token
      names a file; when its text first occurs at `p` in that page, the separator and the file's
      digest go right after its value there and nothing else changes. */
  ghost predicate EntryEffect(txt: string, rws: seq<Option<Rewrite>>, j: nat, m: Ref, distDir: string, disk: Disk,
                              digest: string -> string, p: nat)
  {
    var before := if j <= |rws| then ApplyAll(txt, rws[..j]) else txt;
    && j < |rws|
    && (Ineligible(m.Text(), distDir, disk) ==> ApplyAll(txt, rws[..j + 1]) == before)
    && (!Ineligible(m.Text(), distDir, disk) ==> FileOf(distDir, m.value) in disk.files)
    && (!Ineligible(m.Text(), distDir, disk) && FirstAt(before, m.Text(), p) ==>
          var e := p + |m.name| + 1 + |m.open| + |m.value|;
          && e <= |before|
          && ApplyAll(txt, rws[..j + 1])
             == before[..e] + Separator(m.value) + digest(disk.files[FileOf(distDir, m.value)]) + before[e..])
  }

  /** Entry `j` of the `forEach` on a page whose callbacks do not throw, whatever the number of
      tokens: the `j`-th token of the scan has the effect above on the page the entries before it
      left. */
  lemma HashPassStep(txt: string, distDir: string, disk: Disk, digest: string -> string, j: nat, p: nat)
    requires MapOrFail(Callback(distDir, disk, digest), Texts(Scan(txt))).Ok?
    requires j < |Scan(txt)|
    ensures |MapOrFail(Callback(distDir, disk, digest), Texts(Scan(txt))).value| == |Scan(txt)|
    ensures EntryEffect(txt, MapOrFail(Callback(distDir, disk, digest), Texts(Scan(txt))).value, j, Scan(txt)[j],
                        distDir, disk, digest, p)
  {
    var f := Callback(distDir, disk, digest);
    var toks := Texts(Scan(txt));
    var m := Scan(txt)[j];
    MapOrFailEntries(f, toks);
    var rws := MapOrFail(f, toks).value;
    assert toks[j] == m.Text();
    assert f(m.Text()) == RewriteFor(m.Text(), distDir, disk, digest);
    ScanWellFormed(txt, j);
    ApplyEntry(txt, rws, j, m, distDir, disk, digest, p);
  }

  /** A pass whose callbacks do not throw gives the page after the last entry of the `forEach`. */
  lemma HashPassApplies(txt: string, distDir: string, disk: Disk, digest: string -> string)
    requires Scan(txt) != [] && MapOrFail(Callback(distDir, disk, digest), Texts(Scan(txt))).Ok?
    ensures HashPass(txt, distDir, disk, digest) == Ok(ApplyAll(txt, MapOrFail(Callback(distDir, disk, digest), Texts(Scan(txt))).value))
  {
  }

  /** One entry of the `forEach`, for a well-formed token whose callback result it is. */
  lemma ApplyEntry(txt: string, rws: seq<Option<Rewrite>>, j: nat, m: Ref, distDir: string, disk: Disk,
                   digest: string -> string, p: nat)
    requires j < |rws| && m.WellFormed() && RewriteFor(m.Text(), distDir, disk, digest) == Ok(rws[j])
    ensures EntryEffect(txt, rws, j, m, distDir, disk, digest, p)
  {
    SourceOfRef(m);
    ApplyAllStep(txt, rws, j);
    var before := ApplyAll(txt, rws[..j]);
    if !Ineligible(m.Text(), distDir, disk) && FirstAt(before, m.Text(), p) {
      var file := FileOf(distDir, m.value);
      var sep := Separator(m.value);
      var d := digest(disk.files[file]);
      assert rws[j] == Some(Rewrite(m.Text(), RewriteToken(m.Text(), sep + d)));
      ReplaceRef(before, m, sep, d, p);
    }
  }

  /** Replacing the first occurrence of a reference by its rewrite puts `sep + d` right after
      its value. */
  lemma ReplaceRef(before: string, m: Ref, sep: string, d: string, p: nat)
    requires m.WellFormed() && FirstAt(before, m.Text(), p)
    ensures var e := p + |m.name| + 1 + |m.open| + |m.value|;
            && e <= |before|
            && ReplaceFirst(before, m.Text(), RewriteToken(m.Text(), sep + d)) == before[..e] + sep + d + before[e..]
  {
    RewriteTokenRef(m, sep + d);
    var front := m.name + "=" + m.open + m.value;
    assert m.Text() == front + m.close;
    ReplaceWithin(before, p, front, sep + d, m.close, p + |front|);
    Assoc(before[..p + |front|], sep, d);
  }

  /** A plain value: non-empty, unquoted, without a query string and not an absolute URL. */
  predicate PlainValue(v: string)
  {
    v != [] && (forall j :: 0 <= j < |v| ==> IsValueChar(v[j])) && '?' !in v && !StartsWith(v, "http")
  }

  /** A digest that can stand inside a value. */
  predicate DigestChars(d: string)
  {
    forall j :: 0 <= j < |d| ==> IsValueChar(d[j])
  }

  /** The page `name=v` alone in the document scans to that one reference. */
  lemma ScanLoneToken(t: string, name: string, v: string)
    requires name == "href" || name == "src"
    requires v != [] && forall j :: 0 <= j < |v| ==> IsValueChar(v[j])
    requires t == name + "=" + v
    ensures Scan(t) == [Ref(0, name, "", v, "")]
  {
    var m := Ref(0, name, "", v, "");
    assert t[0..|t|] == t;
    MatchAtUnquoted(t, 0, name, v);
    MatchAtSticky();
    ScanSingle(MatchAt, t, 0, m);
  }

  /** The page `href=v` is one token whose value is `v` and which takes a suffix at its end. */
  lemma LoneTokenFacts(t: string, v: string, suffix: string)
    requires v != [] && (forall j :: 0 <= j < |v| ==> IsValueChar(v[j]))
    requires t == "href=" + v
    ensures Texts(Scan(t)) == [t] && SourceOf(t) == v && RewriteToken(t, suffix) == t + suffix
  {
    var m := Ref(0, "href", "", v, "");
    assert m.Text() == t;
    ScanLoneToken(t, "href", v);
    SourceOfRef(m);
    assert t[|t| - 1] == v[|v| - 1];
  }

  /** The page `href=v` naming a file gets the separator and the digest appended. */
  lemma HashPassLoneToken(v: string, distDir: string, disk: Disk, digest: string -> string)
    requires v != [] && (forall j :: 0 <= j < |v| ==> IsValueChar(v[j])) && !StartsWith(v, "http")
    requires FileOf(distDir, v) in disk.files
    ensures HashPass("href=" + v, distDir, disk, digest)
              == Ok("href=" + v + Separator(v) + digest(disk.files[FileOf(distDir, v)]))
  {
    var t := "href=" + v;
    var suffix := Separator(v) + digest(disk.files[FileOf(distDir, v)]);
    LoneTokenFacts(t, v, suffix);
    assert HashPass(t, distDir, disk, digest) == HashTokens(t, [t], distDir, disk, digest);
    HashOneToken(t, t, distDir, disk, digest);
    assert HashTokens(t, [t], distDir, disk, digest) == Ok(ReplaceFirst(t, t, t + suffix));
    ReplaceAtStart(t, [], t + suffix);
    assert t + [] == t && t + suffix + [] == t + suffix;
    Assoc(t, Separator(v), digest(disk.files[FileOf(distDir, v)]));
  }

  /** A plain value with `?` and a digest appended is still a value, with a query string, naming
      the same file. */
  lemma QueryValue(v: string, d: string)
    requires PlainValue(v) && DigestChars(d)
    ensures var v2 := v + "?" + d;
            && v2 != [] && (forall j :: 0 <= j < |v2| ==> IsValueChar(v2[j]))
            && !StartsWith(v2, "http") && '?' in v2 && BeforeFirst(v2, '?') == BeforeFirst(v, '?')
  {
    QueryValueChars(v, d);
    QueryValueNotHttp(v, d);
    BeforeFirstAppend(v, "?" + d, '?');
    Assoc(v, "?", d);
    assert (v + "?" + d)[|v|] == '?';
  }

  lemma QueryValueChars(v: string, d: string)
    requires PlainValue(v) && DigestChars(d)
    ensures forall j :: 0 <= j < |v + "?" + d| ==> IsValueChar((v + "?" + d)[j])
  {
    var v2 := v + "?" + d;
    forall j | 0 <= j < |v2|
      ensures IsValueChar(v2[j])
    {
      if j < |v| {
        assert v2[j] == v[j];
      } else if j > |v| {
        assert v2[j] == d[j - |v| - 1];
      }
    }
  }

  lemma QueryValueNotHttp(v: string, d: string)
    requires PlainValue(v)
    ensures !StartsWith(v + "?" + d, "http")
  {
    var v2 := v + "?" + d;
    if |v| >= 4 {
      assert v2[..4] == v[..4];
    } else {
      assert v2[|v|] == '?';
    }
  }

  /** The pass is not idempotent: on the page `href=v` it appends `?` and the digest, and a
      second run reads that `?` as a query string and appends `&` and the digest again. */
  lemma HashPassNotIdempotent(v: string, distDir: string, disk: Disk, digest: string -> string)
    requires PlainValue(v) && FileOf(distDir, v) in disk.files
    requires DigestChars(digest(disk.files[FileOf(distDir, v)]))
    ensures var d := digest(disk.files[FileOf(distDir, v)]);
            && HashPass("href=" + v, distDir, disk, digest) == Ok("href=" + v + "?" + d)
            && HashPass("href=" + v + "?" + d, distDir, disk, digest) == Ok("href=" + v + "?" + d + "&" + d)
  {
    var d := digest(disk.files[FileOf(distDir, v)]);
    HashPassLoneToken(v, distDir, disk, digest);
    var v2 := v + "?" + d;
    QueryValue(v, d);
    assert FileOf(distDir, v2) == FileOf(distDir, v);
    HashPassLoneToken(v2, distDir, disk, digest);
    Assoc("href=", v + "?", d);
    Assoc("href=", v, "?");
  }

  /** An unquoted `src=v` token at `i`, followed by the end of the page or a space. */
  lemma SrcTokenAt(t: string, i: nat, tok: string, v: string)
    requires v != [] && (forall j :: 0 <= j < |v| ==> IsValueChar(v[j]))
    requires tok == "src=" + v
    requires i + |tok| <= |t| && t[i..i + |tok|] == tok
    requires i + |tok| == |t| || t[i + |tok|] == ' '
    ensures MatchAt(t, i) == Some(Ref(i, "src", "", v, ""))
  {
    MatchAtUnquoted(t, i, "src", v);
  }

  /** Where the pattern matches in `src=v src=v`: at both tokens and not at the space. */
  lemma TwinMatches(tok: string, v: string)
    requires v != [] && (forall j :: 0 <= j < |v| ==> IsValueChar(v[j]))
    requires tok == "src=" + v
    ensures var t := tok + " " + tok;
            && MatchAt(t, 0) == Some(Ref(0, "src", "", v, ""))
            && MatchAt(t, |tok|) == None
            && MatchAt(t, |tok| + 1) == Some(Ref(|tok| + 1, "src", "", v, ""))
  {
    var t := tok + " " + tok;
    assert t[0..|tok|] == tok;
    SrcTokenAt(t, 0, tok, v);
    assert t[|tok| + 1..|t|] == tok;
    SrcTokenAt(t, |tok| + 1, tok, v);
    assert t[|tok|] == ' ';
  }

  /** The page `src=v src=v` holds the token `src=v` twice. */
  lemma TwinTokensScan(tok: string, v: string)
    requires v != [] && (forall j :: 0 <= j < |v| ==> IsValueChar(v[j]))
    requires tok == "src=" + v
    ensures Texts(Scan(tok + " " + tok)) == [tok, tok]
  {
    var m := Ref(0, "src", "", v, "");
    var n := Ref(|tok| + 1, "src", "", v, "");
    TwinRefs(tok, v);
    assert m.Text() == tok && n.Text() == tok;
    TwoTexts(m, n, tok);
  }

  /** The matches the scan of `src=v src=v` finds: one at the start, one after the space. */
  lemma TwinRefs(tok: string, v: string)
    requires v != [] && (forall j :: 0 <= j < |v| ==> IsValueChar(v[j]))
    requires tok == "src=" + v
    ensures Scan(tok + " " + tok) == [Ref(0, "src", "", v, ""), Ref(|tok| + 1, "src", "", v, "")]
  {
    TwinMatches(tok, v);
    MatchAtSticky();
    ScanPair(MatchAt, tok + " " + tok, Ref(0, "src", "", v, ""), Ref(|tok| + 1, "src", "", v, ""));
  }

  /** The texts of two matches that both read `tok`. */
  lemma TwoTexts(m: Ref, n: Ref, tok: string)
    requires m.Text() == tok && n.Text() == tok
    ensures Texts([m, n]) == [tok, tok]
  {
    var texts := Texts([m, n]);
    assert texts[0] == tok && texts[1] == tok;
  }

  /** An unquoted token's value is what follows its name, and a suffix goes at its end. */
  lemma UnquotedTokenFacts(tok: string, v: string, suffix: string)
    requires v != [] && (forall j :: 0 <= j < |v| ==> IsValueChar(v[j]))
    requires tok == "src=" + v
    ensures SourceOf(tok) == v && RewriteToken(tok, suffix) == tok + suffix
  {
    var m := Ref(0, "src", "", v, "");
    assert m.Text() == tok;
    SourceOfRef(m);
    assert tok[|tok| - 1] == v[|v| - 1];
  }

  /** Applying the rewrite of a leading token twice puts the suffix twice after it. */
  lemma ApplyTwiceAtStart(tok: string, s: string, rest: string)
    ensures var rw := Some(Rewrite(tok, tok + s));
            ApplyAll(tok + rest, [rw, rw]) == tok + s + s + rest
  {
    var rw := Some(Rewrite(tok, tok + s));
    var rws := [rw, rw];
    var x := tok + rest;
    assert rws[..1] == [rw] && rws[..1][..0] == [];
    assert ApplyAll(x, rws[..1]) == ReplaceFirst(x, tok, tok + s);
    assert ApplyAll(x, rws) == ReplaceFirst(ApplyAll(x, rws[..1]), tok, tok + s);
    ReplaceAtStart(tok, rest, tok + s);
    Assoc(tok, s, rest);
    ReplaceAtStart(tok, s + rest, tok + s);
    Assoc(tok + s, s, rest);
  }

  /** The same unquoted token twice, `src=v src=v`: both rewrites replace the first occurrence,
      so the first token gets the digest twice and the second keeps none. */
  lemma DuplicateTokensHashFirstTwice(v: string, distDir: string, disk: Disk, digest: string -> string)
    requires PlainValue(v) && FileOf(distDir, v) in disk.files
    ensures var tok := "src=" + v;
            var s := "?" + digest(disk.files[FileOf(distDir, v)]);
            HashPass(tok + " " + tok, distDir, disk, digest) == Ok(tok + s + s + " " + tok)
  {
    var tok := "src=" + v;
    var s := "?" + digest(disk.files[FileOf(distDir, v)]);
    var t := tok + " " + tok;
    TwinTokensScan(tok, v);
    UnquotedTokenFacts(tok, v, s);
    assert HashPass(t, distDir, disk, digest) == HashTokens(t, [tok, tok], distDir, disk, digest);
    var f := Callback(distDir, disk, digest);
    var rw := Some(Rewrite(tok, tok + s));
    assert f(tok) == RewriteFor(tok, distDir, disk, digest);
    assert f(tok) == Ok(rw);
    MapOrFailTwice(f, tok);
    ApplyTwiceAtStart(tok, s, " " + tok);
    Assoc(tok, " ", tok);
    Assoc(tok + s + s, " ", tok);
    assert HashTokens(t, [tok, tok], distDir, disk, digest) == Ok(ApplyAll(t, [rw, rw]));
  }
}
