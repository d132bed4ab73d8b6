/** The text passes of `compileHTML`: the vendor `<script>` and preload lines, the insertions
    in front of `</head>` and in front of the marker line, the removal of the `pr1_module=1`
    flag, and the hash pass over the result. */
module HtmlAssembler {
  import opened Outcomes
  import opened Text
  import opened Paths
  import opened RefScanner
  import opened SrcHash
  import opened Bundler
  import opened FileSystem

  /** The query flag that marks the page's main script. */
  const Flag := "pr1_module=1"

  /** What the main-script pattern wants after the captured path: `?`, the flag, a quote. */
  const MainTail := "?pr1_module=1\""

  // ---------------------------------------------------------------------------------------
  // The main script: `/src="([^"]+)\?pr1_module=1"/.exec(index)[1]`

  /** The first `c` at or after `from`. */
  function NextChar(t: string, c: char, from: nat): (r: Option<nat>)
    decreases |t| - from
    ensures r.Some? ==> from <= r.value < |t| && t[r.value] == c
    ensures r.Some? ==> forall k :: from <= k < r.value ==> t[k] != c
    ensures r.None? ==> forall k :: from <= k < |t| ==> t[k] != c
  {
    if from >= |t| then None
    else if t[from] == c then Some(from)
    else NextChar(t, c, from + 1)
  }

  /** The pattern matches at `i` and captures `v`: `src="`, then a non-empty run without a quote,
      then the tail. */
  ghost predicate MainAt(t: string, i: int, v: string)
  {
    v != [] && '"' !in v && OccursAt(t, "src=\"" + v + MainTail, i)
  }

  /** What the pattern captures when tried at `i`. `[^"]+` runs to the next quote, so the tail
      must end exactly there. */
  function MainAtIndex(t: string, i: nat): Option<string>
  {
    if !OccursAt(t, "src=\"", i) then None
    else
      match NextChar(t, '"', i + 5)
      case None => None
      case Some(q) =>
        if q >= i + 19 && OccursAt(t, "?pr1_module=1", q - 13) then Some(t[i + 5..q - 13]) else None
  }

  /** The pieces of a match at `i` capturing `v`. */
  lemma MainAtPieces(t: string, i: nat, v: string)
    requires MainAt(t, i, v)
    ensures var q := i + 5 + |v| + 13;
            && q < |t| && t[q] == '"'
            && OccursAt(t, "src=\"", i) && t[i + 5..q - 13] == v && OccursAt(t, "?pr1_module=1", q - 13)
            && forall k :: i + 5 <= k < q ==> t[k] != '"'
  {
    var q := i + 5 + |v| + 13;
    OccursSplit(t, "src=\"" + v, MainTail, i);
    OccursSplit(t, "src=\"", v, i);
    assert MainTail == "?pr1_module=1" + "\"";
    OccursSplit(t, "?pr1_module=1", "\"", q - 13);
    assert t[q] == t[q..q + 1][0];
    forall k | i + 5 <= k < q
      ensures t[k] != '"'
    {
      if k < q - 13 {
        assert t[k] == t[i + 5..q - 13][k - i - 5];
      } else {
        assert t[k] == t[q - 13..q][k - q + 13];
      }
    }
  }

  /** A capture found at `i` is a match there. */
  lemma MainAtIndexSound(t: string, i: nat)
    requires MainAtIndex(t, i).Some?
    ensures MainAt(t, i, MainAtIndex(t, i).value)
  {
    var q := NextChar(t, '"', i + 5).value;
    var v := t[i + 5..q - 13];
    assert MainAtIndex(t, i) == Some(v);
    assert '"' !in v by {
      forall k | 0 <= k < |v|
        ensures v[k] != '"'
      {
        assert v[k] == t[i + 5 + k];
      }
    }
    assert OccursAt(t, "src=\"" + v, i) by {
      assert OccursAt(t, v, i + 5);
      OccursConcat(t, "src=\"", v, i);
    }
    assert OccursAt(t, MainTail, q - 13) by {
      assert OccursAt(t, "\"", q);
      OccursConcat(t, "?pr1_module=1", "\"", q - 13);
    }
    OccursConcat(t, "src=\"" + v, MainTail, i);
  }

  /** Trying the pattern at `i` captures `v` exactly when the pattern matches there with `v`. */
  lemma MainAtIndexIff(t: string, i: nat)
    ensures MainAtIndex(t, i).Some? ==> MainAt(t, i, MainAtIndex(t, i).value)
    ensures forall v :: MainAt(t, i, v) ==> MainAtIndex(t, i) == Some(v)
  {
    if MainAtIndex(t, i).Some? {
      MainAtIndexSound(t, i);
    }
    forall v | MainAt(t, i, v)
      ensures MainAtIndex(t, i) == Some(v)
    {
      MainAtPieces(t, i, v);
    }
  }

  /** The leftmost match at or after `i`. */
  function MainFrom(t: string, i: nat): (r: Option<string>)
    decreases |t| - i
    ensures r.Some? ==> exists j :: i <= j && MainAt(t, j, r.value) && forall k, w :: i <= k < j ==> !MainAt(t, k, w)
    ensures r.None? ==> forall k, w :: i <= k ==> !MainAt(t, k, w)
  {
    MainAtIndexIff(t, i);
    if i >= |t| then None
    else
      match MainAtIndex(t, i)
      case Some(v) => Some(v)
      case None => MainFrom(t, i + 1)
  }

  /** The path of the main script, or nothing when `exec` returns `null`. */
  function MainScript(index: string): Option<string>
  {
    MainFrom(index, 0)
  }

  // ---------------------------------------------------------------------------------------
  // The marker line: `/^.+pr1_module=1.+$/m.exec(indexHtml)[0]`

  /** The line terminators: `.` does not match them, and under the `m` flag `^` and `$` match
      next to them. */
  predicate IsLineBreak(c: char)
  {
    c == '\n' || c == '\r' || c == '\U{2028}' || c == '\U{2029}'
  }

  /** `^` under the `m` flag: the start of the text or just after a line terminator. */
  predicate LineStart(t: string, s: int)
  {
    s == 0 || (0 < s <= |t| && IsLineBreak(t[s - 1]))
  }

  /** Where the line from `s` ends: the next line terminator, or the end of the text. */
  function LineEnd(t: string, s: nat): (e: nat)
    requires s <= |t|
    decreases |t| - s
    ensures s <= e <= |t| && (e == |t| || IsLineBreak(t[e]))
    ensures forall k :: s <= k < e ==> !IsLineBreak(t[k])
  {
    if s == |t| || IsLineBreak(t[s]) then s else LineEnd(t, s + 1)
  }

  /** The start of the line that holds position `k`. */
  function LineStartOf(t: string, k: nat): (s: nat)
    requires k <= |t|
    ensures s <= k && LineStart(t, s)
    ensures forall j :: s <= j < k ==> !IsLineBreak(t[j])
  {
    if k == 0 || IsLineBreak(t[k - 1]) then k else LineStartOf(t, k - 1)
  }

  /** `.+pr1_module=1.+` inside `[s, e)`: the flag with something on either side. */
  function FlagInside(t: string, s: nat, e: nat): (r: bool)
    ensures r <==> exists p :: s < p && p + |Flag| < e && OccursAt(t, Flag, p)
  {
    match IndexOfFrom(t, Flag, s + 1)
    case None => false
    case Some(p) => p + |Flag| < e
  }

  /** A line starts at `s` and the whole line matches the pattern. */
  predicate MarkerAt(t: string, s: nat)
  {
    s <= |t| && LineStart(t, s) && FlagInside(t, s, LineEnd(t, s))
  }

  /** The first marker line starting at or after `i`. */
  function MarkerFrom(t: string, i: nat): (r: Option<nat>)
    requires i <= |t|
    decreases |t| - i
    ensures r.Some? ==> i <= r.value <= |t| && MarkerAt(t, r.value)
    ensures r.Some? ==> forall k :: i <= k < r.value ==> !MarkerAt(t, k)
    ensures r.None? ==> forall k :: i <= k ==> !MarkerAt(t, k)
  {
    if MarkerAt(t, i) then Some(i)
    else if i == |t| then None
    else MarkerFrom(t, i + 1)
  }

  /** Where the marker line of the page starts, or nothing when `exec` returns `null`. */
  function MarkerStart(t: string): Option<nat>
  {
    MarkerFrom(t, 0)
  }

  /** A line whose start and continuation hold no line break runs at least to `m`. */
  lemma LineReaches(t: string, s: nat, k: nat, m: nat)
    requires s <= k <= m <= |t|
    requires forall j :: s <= j < k ==> !IsLineBreak(t[j])
    requires forall j :: k <= j < m ==> !IsLineBreak(t[j])
    ensures LineEnd(t, s) >= m
  {
  }

  /** A copy at `k` of a stretch `[s, e)` without line breaks has none either. */
  lemma CopyHasNoBreaks(t: string, s: nat, e: nat, k: nat)
    requires s <= e <= |t| && forall j :: s <= j < e ==> !IsLineBreak(t[j])
    requires OccursAt(t, t[s..e], k)
    ensures forall j :: k <= j < k + (e - s) ==> !IsLineBreak(t[j])
  {
    forall j | k <= j < k + (e - s)
      ensures !IsLineBreak(t[j])
    {
      assert t[j] == t[k..k + (e - s)][j - k] == t[s + (j - k)];
    }
  }

  /** A copy at `k` of a stretch `[s, e)` holding the flag at `p` holds it at the same offset. */
  lemma CopyHasFlag(t: string, s: nat, e: nat, k: nat, p: nat)
    requires s <= p && p + |Flag| <= e <= |t| && OccursAt(t, Flag, p)
    requires OccursAt(t, t[s..e], k)
    ensures OccursAt(t, Flag, k + (p - s))
  {
    assert t[k..k + (e - s)] == t[s..e];
    OccursShift(t, k, s, e - s, Flag, p);
  }

  /** A copy, found at `k`, of a marker line's text makes the line around `k` a marker line. */
  lemma EarlierMarker(t: string, s: nat, k: nat)
    requires MarkerAt(t, s)
    requires OccursAt(t, t[s..LineEnd(t, s)], k)
    ensures LineStartOf(t, k) <= k && MarkerAt(t, LineStartOf(t, k))
  {
    var e := LineEnd(t, s);
    var p :| s < p && p + |Flag| < e && OccursAt(t, Flag, p);
    var s0 := LineStartOf(t, k);
    CopyHasNoBreaks(t, s, e, k);
    LineReaches(t, s0, k, k + (e - s));
    CopyHasFlag(t, s, e, k, p);
    assert s0 < k + (p - s) && k + (p - s) + |Flag| < LineEnd(t, s0);
  }

  /** The marker line's first occurrence in the page is the line itself: any earlier copy of
      its text would sit in an earlier marker line. */
  lemma MarkerLineFirstOccurrence(t: string, s: nat)
    requires MarkerStart(t) == Some(s)
    ensures FirstAt(t, t[s..LineEnd(t, s)], s)
  {
    forall k | 0 <= k < s
      ensures !OccursAt(t, t[s..LineEnd(t, s)], k)
    {
      if OccursAt(t, t[s..LineEnd(t, s)], k) {
        EarlierMarker(t, s, k);
      }
    }
  }

  /** Putting `block` and a line break in front of the marker line's text puts them right before
      the marker line. */
  lemma VendorsBeforeMarker(t: string, s: nat, block: string)
    requires MarkerStart(t) == Some(s)
    ensures var line := t[s..LineEnd(t, s)];
            ReplaceFirst(t, line, block + "\n" + line) == t[..s] + block + "\n" + t[s..]
  {
    var line := t[s..LineEnd(t, s)];
    MarkerLineFirstOccurrence(t, s);
    InsertBeforeFirst(t, line, block + "\n", s);
    Assoc(t[..s], block, "\n");
  }

  // ---------------------------------------------------------------------------------------
  // The flag: `.replace(/(\?|&)pr1_module=1/, '')`

  /** `?pr1_module=1` or `&pr1_module=1` at `k`. */
  predicate FlagParamAt(t: string, k: int)
  {
    0 <= k < |t| && (t[k] == '?' || t[k] == '&') && OccursAt(t, Flag, k + 1)
  }

  /** The first flag parameter at or after `i`. */
  function FlagParamFrom(t: string, i: nat): (r: Option<nat>)
    decreases |t| - i
    ensures r.Some? ==> i <= r.value && FlagParamAt(t, r.value)
    ensures r.Some? ==> forall k :: i <= k < r.value ==> !FlagParamAt(t, k)
    ensures r.None? ==> forall k :: i <= k ==> !FlagParamAt(t, k)
  {
    if i >= |t| then None
    else if FlagParamAt(t, i) then Some(i)
    else FlagParamFrom(t, i + 1)
  }

  /** Removes the first flag parameter, separator included, and nothing else. */
  function StripFlag(t: string): (r: string)
    ensures (forall k :: !FlagParamAt(t, k)) ==> r == t
    ensures forall k :: FlagParamAt(t, k) && (forall j :: 0 <= j < k ==> !FlagParamAt(t, j)) ==>
              k + 1 + |Flag| <= |t| && r == t[..k] + t[k + 1 + |Flag|..]
  {
    match FlagParamFrom(t, 0)
    case None => t
    case Some(k) => t[..k] + t[k + 1 + |Flag|..]
  }

  /** The path prefix every vendor `<script>` line carries. */
  const VendorSrc := "src=\"./"

  /** A flag parameter never overlaps `src="./`: the quote, the `.` and the `/` cannot be part of
      it, and its closing `1` cannot fall on `src=`. */
  lemma FlagMissesVendorSrc(t: string, j: nat, k: nat)
    requires OccursAt(t, VendorSrc, j) && FlagParamAt(t, k)
    ensures k >= j + |VendorSrc| || k + 1 + |Flag| <= j
  {
    assert t[j..j + 7] == VendorSrc;
    assert t[j] == 's' && t[j + 1] == 'r' && t[j + 2] == 'c' && t[j + 3] == '=';
    assert t[j + 4] == '"' && t[j + 5] == '.' && t[j + 6] == '/';
    assert t[k + 1..k + 13] == Flag;
    forall x | k + 1 <= x < k + 13
      ensures t[x] != '"'
    {
      assert t[x] == Flag[x - k - 1];
    }
    assert t[k + 12] == Flag[11] == '1';
  }

  /** Cutting `[k, c)` out of `t` keeps an occurrence that lies wholly before or after it. */
  lemma CutKeeps(t: string, k: nat, c: nat, p: string, j: nat)
    requires k <= c <= |t| && OccursAt(t, p, j)
    requires j + |p| <= k || c <= j
    ensures OccursAt(t[..k] + t[c..], p, if j + |p| <= k then j else j - (c - k))
  {
    var r := t[..k] + t[c..];
    var d := if j + |p| <= k then j else j - (c - k);
    forall x | 0 <= x < |p|
      ensures r[d + x] == p[x]
    {
      assert t[j + x] == t[j..j + |p|][x];
    }
    assert r[d..d + |p|] == p;
  }

  /** Removing the flag keeps a `src="./` of the page. */
  lemma StripKeepsVendorSrc(t: string, j: nat)
    requires OccursAt(t, VendorSrc, j)
    ensures exists j' :: OccursAt(StripFlag(t), VendorSrc, j')
  {
    match FlagParamFrom(t, 0)
    case None =>
      assert StripFlag(t) == t;
      assert OccursAt(StripFlag(t), VendorSrc, j);
    case Some(k) =>
      FlagMissesVendorSrc(t, j, k);
      assert StripFlag(t) == t[..k] + t[k + 1 + |Flag|..];
      CutKeeps(t, k, k + 1 + |Flag|, VendorSrc, j);
  }

  // ---------------------------------------------------------------------------------------
  // Head insertions: `.replace(/<\/head>/, block + '\n</head>')`

  const HeadClose := "</head>"

  /** `block` and a line break in front of the first `</head>`. */
  function InsertHead(html: string, block: string): string
  {
    ReplaceFirst(html, HeadClose, block + "\n" + HeadClose)
  }

  /** Without `</head>` the insertion changes nothing; otherwise the block and a line break land
      right in front of the first `</head>` and the rest of the page is kept. */
  lemma HeadInsertion(html: string, block: string)
    ensures Absent(html, HeadClose) ==> InsertHead(html, block) == html
    ensures forall k :: FirstAt(html, HeadClose, k) ==>
              k <= |html| && InsertHead(html, block) == html[..k] + block + "\n" + html[k..]
  {
    forall k | FirstAt(html, HeadClose, k)
      ensures k <= |html| && InsertHead(html, block) == html[..k] + block + "\n" + html[k..]
    {
      InsertBeforeFirst(html, HeadClose, block + "\n", k);
      Assoc(html[..k], block, "\n");
    }
  }

  /** `out.replace(/\.js$/, '.css')`. */
  function CssPath(out: string): string
  {
    if EndsWith(out, ".js") then out[..|out| - 3] + ".css" else out
  }

  /** `cssPath.replace(distDir, '').replace(/\\/g, '/')`. */
  function CssHref(cssPath: string, distDir: string): string
  {
    ReplaceAllChar(ReplaceFirst(cssPath, distDir, ""), '\\', '/')
  }

  function StylesheetLine(href: string): string
  {
    "  <link rel=\"stylesheet\" href=\"." + href + "\">"
  }

  // ---------------------------------------------------------------------------------------
  // Vendor lines

  const PolyfillName := "polyfill.min.js"

  function ScriptLine(name: string): string
  {
    "  <script src=\"./vendor/" + name + "\"></script>"
  }

  function PreloadLine(name: string): string
  {
    "  <link rel=\"preload\" href=\"./vendor/" + name + "\" as=\"script\">"
  }

  /** `path.basename(f[1] || f[0])`. */
  function VendorName(v: Vendor): string
  {
    Basename(v.Shipped())
  }

  /** `/\bregeneratorRuntime\b/.test(code)`. */
  predicate NeedsPolyfill(code: string)
  {
    ContainsWord(code, "regeneratorRuntime")
  }

  /** The shipped file name of each vendor, in declaration order. */
  function VendorNames(vendors: seq<Vendor>): (r: seq<string>)
    ensures |r| == |vendors| && forall k :: 0 <= k < |vendors| ==> r[k] == VendorName(vendors[k])
  {
    seq(|vendors|, k requires 0 <= k < |vendors| => VendorName(vendors[k]))
  }

  /** The files under `./vendor/` the page loads: one per vendor entry in declaration order, and
      the polyfill last when the bundle uses `regeneratorRuntime`. */
  function VendorFiles(vendors: seq<Vendor>, code: string): (r: seq<string>)
    ensures |r| == |vendors| + (if NeedsPolyfill(code) then 1 else 0)
    ensures forall k :: 0 <= k < |vendors| ==> r[k] == VendorName(vendors[k])
    ensures NeedsPolyfill(code) ==> r[|vendors|] == PolyfillName
  {
    VendorNames(vendors) + (if NeedsPolyfill(code) then [PolyfillName] else [])
  }

  function ScriptLines(names: seq<string>): (r: seq<string>)
    ensures |r| == |names| && forall k :: 0 <= k < |names| ==> r[k] == ScriptLine(names[k])
  {
    seq(|names|, k requires 0 <= k < |names| => ScriptLine(names[k]))
  }

  function PreloadLines(names: seq<string>): (r: seq<string>)
    ensures |r| == |names| && forall k :: 0 <= k < |names| ==> r[k] == PreloadLine(names[k])
  {
    seq(|names|, k requires 0 <= k < |names| => PreloadLine(names[k]))
  }

  /** Adding one name adds its line at the end of both lists. */
  lemma LinesSnoc(names: seq<string>, i: nat)
    requires i < |names|
    ensures ScriptLines(names[..i + 1]) == ScriptLines(names[..i]) + [ScriptLine(names[i])]
    ensures PreloadLines(names[..i + 1]) == PreloadLines(names[..i]) + [PreloadLine(names[i])]
  {
    assert ScriptLines(names[..i + 1])[..i] == ScriptLines(names[..i]);
    assert PreloadLines(names[..i + 1])[..i] == PreloadLines(names[..i]);
  }

  /** The polyfill's lines, when the bundle needs it, come after those of the vendors. */
  lemma PolyfillLines(vendors: seq<Vendor>, code: string)
    ensures NeedsPolyfill(code) ==>
              && ScriptLines(VendorFiles(vendors, code)) == ScriptLines(VendorNames(vendors)) + [ScriptLine(PolyfillName)]
              && PreloadLines(VendorFiles(vendors, code)) == PreloadLines(VendorNames(vendors)) + [PreloadLine(PolyfillName)]
    ensures !NeedsPolyfill(code) ==> VendorFiles(vendors, code) == VendorNames(vendors)
  {
    var names := VendorFiles(vendors, code);
    if NeedsPolyfill(code) {
      LinesSnoc(names, |vendors|);
      assert names[..|vendors|] == VendorNames(vendors);
      assert names[..|vendors| + 1] == names;
    } else {
      assert names == VendorNames(vendors);
    }
  }

  /** Every `<script>` line names `./vendor/` in a `src="` attribute. */
  lemma ScriptLineHasVendorSrc(name: string)
    ensures OccursAt(ScriptLine(name), VendorSrc, 10)
  {
    assert ScriptLine(name)[10..17] == VendorSrc;
  }

  // ---------------------------------------------------------------------------------------
  // The order of the head

  /** No `</` anywhere in `s`, so no closing tag either. */
  predicate NoCloseTag(s: string)
  {
    forall i :: 0 <= i < |s| - 1 ==> !(s[i] == '<' && s[i + 1] == '/')
  }

  /** Two pieces without `</` that do not form one at their seam make a whole without one. */
  lemma NoCloseTagConcat(a: string, b: string)
    requires NoCloseTag(a) && NoCloseTag(b)
    requires a == [] || b == [] || a[|a| - 1] != '<' || b[0] != '/'
    ensures NoCloseTag(a + b)
  {
    var t := a + b;
    forall i | 0 <= i < |t| - 1
      ensures !(t[i] == '<' && t[i + 1] == '/')
    {
      if i + 1 < |a| {
        assert t[i] == a[i] && t[i + 1] == a[i + 1];
      } else if i >= |a| {
        assert t[i] == b[i - |a|] && t[i + 1] == b[i + 1 - |a|];
      }
    }
  }

  /** A text without `<` has no `</`. */
  lemma NoLessThan(s: string)
    requires '<' !in s
    ensures NoCloseTag(s)
  {
    forall i | 0 <= i < |s| - 1
      ensures s[i] != '<'
    {
      assert s[i] in s;
    }
  }

  /** A preload line of a name without `/` holds no `</`. */
  lemma PreloadLineNoCloseTag(name: string)
    requires '/' !in name
    ensures NoCloseTag(PreloadLine(name))
  {
    var front := "  <link rel=\"preload\" href=\"./vendor/";
    var back := "\" as=\"script\">";
    assert NoCloseTag(front) by {
      var tag := "  <l";
      var rel := "ink rel=\"preload\" ";
      var href := "href=\"./vendor/";
      assert front == tag + rel + href;
      NoLessThan(rel);
      NoLessThan(href);
      NoCloseTagConcat(tag, rel);
      NoCloseTagConcat(tag + rel, href);
    }
    assert NoCloseTag(name) by {
      forall i | 0 <= i < |name| - 1
        ensures !(name[i] == '<' && name[i + 1] == '/')
      {
        assert name[i + 1] in name;
      }
    }
    NoLessThan(back);
    NoCloseTagConcat(front, name);
    NoCloseTagConcat(front + name, back);
    assert PreloadLine(name) == front + name + back;
  }

  /** Lines without `</` joined by line breaks hold no `</`. */
  lemma {:induction false} JoinNoCloseTag(xs: seq<string>)
    requires forall k :: 0 <= k < |xs| ==> NoCloseTag(xs[k])
    decreases |xs|
    ensures NoCloseTag(Join(xs, "\n"))
  {
    if |xs| > 1 {
      JoinNoCloseTag(xs[1..]);
      NoCloseTagConcat(xs[0], "\n");
      NoCloseTagConcat(xs[0] + "\n", Join(xs[1..], "\n"));
    }
  }

  /** The preload block of names without `/` holds no `</head>` and starts with a space when it
      is not empty. */
  lemma PreloadBlockShape(names: seq<string>)
    requires forall k :: 0 <= k < |names| ==> '/' !in names[k]
    ensures Absent(Join(PreloadLines(names), "\n"), HeadClose)
    ensures names != [] ==> |Join(PreloadLines(names), "\n")| > 0 && Join(PreloadLines(names), "\n")[0] == ' '
  {
    var lines := PreloadLines(names);
    var p := Join(lines, "\n");
    forall k | 0 <= k < |lines|
      ensures NoCloseTag(lines[k])
    {
      PreloadLineNoCloseTag(names[k]);
    }
    JoinNoCloseTag(lines);
    forall j | 0 <= j && j + 7 <= |p|
      ensures !OccursAt(p, HeadClose, j)
    {
      assert p[j..j + 7][0] == p[j] && p[j..j + 7][1] == p[j + 1];
    }
    if names != [] {
      JoinStartsWithFirst(lines, "\n");
      assert p[0] == p[..|lines[0]|][0] == PreloadLine(names[0])[0];
    }
  }

  /** The files the page loads have plain names: base names, or the polyfill's. */
  lemma VendorFilesHaveNoSlash(vendors: seq<Vendor>, code: string)
    ensures forall k :: 0 <= k < |VendorFiles(vendors, code)| ==> '/' !in VendorFiles(vendors, code)[k]
  {
    var names := VendorFiles(vendors, code);
    forall k | 0 <= k < |names|
      ensures '/' !in names[k]
    {
      if k < |vendors| {
        BasenameHasNoSlash(vendors[k].Shipped());
      } else {
        assert names[k] == PolyfillName;
      }
    }
  }

  /** With `block` (empty or starting with a space) and a line break inserted at the first
      `</head>`, that `</head>` is still the first one when `block` holds none. */
  lemma HeadStaysFirst(html: string, block: string, k: nat)
    requires FirstAt(html, HeadClose, k) && Absent(block, HeadClose)
    requires block == [] || block[0] == ' '
    ensures FirstAt(html[..k] + block + "\n" + html[k..], HeadClose, k + |block| + 1)
  {
    var t := html[..k] + block + "\n" + html[k..];
    var e := k + |block| + 1;
    assert t[e..] == html[k..];
    assert OccursAt(t, HeadClose, e) by {
      assert t[e..e + 7] == html[k..k + 7];
    }
    assert forall x :: 0 <= x < |HeadClose| ==> HeadClose[x] != ' ' && HeadClose[x] != '\n';
    assert forall x :: 0 <= x < k ==> t[x] == html[x];
    assert forall x :: k <= x < k + |block| ==> t[x] == block[x - k];
    forall j | 0 <= j < e && j + 7 <= |t|
      ensures !OccursAt(t, HeadClose, j)
    {
      if j + 7 <= k {
        assert t[j..j + 7] == html[j..j + 7];
        assert !OccursAt(html, HeadClose, j);
      } else if j < k {
        assert t[k] == ' ' || t[k] == '\n' by {
          if block == [] {
            assert t[k] == '\n';
          } else {
            assert t[k] == block[0];
          }
        }
        assert t[j..j + 7][k - j] == t[k];
        assert HeadClose[k - j] != t[k];
      } else if j + 7 <= k + |block| {
        assert t[j..j + 7] == block[j - k..j - k + 7];
        assert !OccursAt(block, HeadClose, j - k);
      } else {
        assert t[k + |block|] == '\n';
        assert t[j..j + 7][k + |block| - j] == t[k + |block|];
        assert HeadClose[k + |block| - j] != '\n';
      }
    }
  }

  /** The head as `compileHTML` leaves it: the preload block, a line break, the stylesheet line
      and a line break when the bundle has a sibling `.css` file, then the first `</head>`; a page
      without `</head>` is left as it is. */
  lemma WithHeadOrder(index: string, names: seq<string>, out: string, distDir: string, disk: Disk)
    requires forall k :: 0 <= k < |names| ==> '/' !in names[k]
    ensures Absent(index, HeadClose) ==> WithHead(index, names, out, distDir, disk) == index
    ensures forall k :: FirstAt(index, HeadClose, k) ==>
              k <= |index|
              && WithHead(index, names, out, distDir, disk)
                 == index[..k] + Join(PreloadLines(names), "\n") + "\n"
                    + (if disk.Exists(CssPath(out)) then StylesheetLine(CssHref(CssPath(out), distDir)) + "\n" else "")
                    + index[k..]
  {
    var p := Join(PreloadLines(names), "\n");
    HeadInsertion(index, p);
    if Absent(index, HeadClose) {
      HeadInsertion(index, StylesheetLine(CssHref(CssPath(out), distDir)));
    }
    forall k | FirstAt(index, HeadClose, k)
      ensures k <= |index|
              && WithHead(index, names, out, distDir, disk)
                 == index[..k] + p + "\n"
                    + (if disk.Exists(CssPath(out)) then StylesheetLine(CssHref(CssPath(out), distDir)) + "\n" else "")
                    + index[k..]
    {
      var html := index[..k] + p + "\n" + index[k..];
      PreloadBlockShape(names);
      HeadStaysFirst(index, p, k);
      var e := k + |p| + 1;
      if disk.Exists(CssPath(out)) {
        var css := StylesheetLine(CssHref(CssPath(out), distDir));
        HeadInsertion(html, css);
        assert html[..e] == index[..k] + p + "\n";
        assert html[e..] == index[k..];
      }
    }
  }

  /** The text passes after the head: with no marker line the page throws, and otherwise the
      vendor block and a line break go right before the marker line, the first flag parameter is
      cut out, and the hash pass runs on the result. */
  lemma AssembleSteps(index: string, names: seq<string>, out: string, distDir: string, disk: Disk, digest: string -> string)
    ensures var html := WithHead(index, names, out, distDir, disk);
            && (MarkerStart(html).None? ==> Assemble(index, names, out, distDir, disk, digest) == Err(NoMarkerLine))
            && (MarkerStart(html).Some? ==>
                  var s := MarkerStart(html).value;
                  s <= |html|
                  && Assemble(index, names, out, distDir, disk, digest)
                     == HashPass(StripFlag(html[..s] + Join(ScriptLines(names), "\n") + "\n" + html[s..]), distDir, disk, digest))
  {
    var html := WithHead(index, names, out, distDir, disk);
    if MarkerStart(html).Some? {
      VendorsBeforeMarker(html, MarkerStart(html).value, Join(ScriptLines(names), "\n"));
    }
  }

  // ---------------------------------------------------------------------------------------
  // compileHTML

  /** `path.resolve(appRootPath, 'node_modules/', file)` to `path.resolve(distDir, 'vendor/',
      fileName)` for each vendor, with `file` the shipped build and `fileName` its base name. */
  function VendorCopies(appRoot: string, distDir: string, vendors: seq<Vendor>): (r: seq<(string, string)>)
    ensures |r| == |vendors|
  {
    seq(|vendors|, k requires 0 <= k < |vendors| =>
      (Resolve(Resolve(appRoot, "node_modules/"), vendors[k].Shipped()), Resolve(Resolve(distDir, "vendor/"), VendorName(vendors[k]))))
  }

  /** `path.resolve(originDir, f)` to `path.resolve(distDir, f)` for each static entry. */
  function StaticCopies(originDir: string, distDir: string, statics: seq<string>): (r: seq<(string, string)>)
    ensures |r| == |statics|
  {
    seq(|statics|, k requires 0 <= k < |statics| => (Resolve(originDir, statics[k]), Resolve(distDir, statics[k])))
  }

  function PolyfillSource(appRoot: string): string
  {
    Resolve(appRoot, "node_modules/@babel/polyfill/dist/polyfill.min.js")
  }

  function PolyfillTarget(distDir: string): string
  {
    Resolve(distDir, "vendor/polyfill.min.js")
  }

  /** The page after the preload block and, when the bundle has a sibling stylesheet, its link
      went in front of `</head>`. */
  function WithHead(index: string, names: seq<string>, out: string, distDir: string, disk: Disk): string
  {
    var html := InsertHead(index, Join(PreloadLines(names), "\n"));
    var css := CssPath(out);
    if disk.Exists(css) then InsertHead(html, StylesheetLine(CssHref(css, distDir))) else html
  }

  /** The text passes that follow the bundle: head insertions, the vendor lines before the marker
      line, the flag removal and the hash pass, which reads the files on `disk`. */
  function Assemble(index: string, names: seq<string>, out: string, distDir: string, disk: Disk, digest: string -> string): Result<string>
  {
    var html := WithHead(index, names, out, distDir, disk);
    match MarkerStart(html)
    case None => Err(NoMarkerLine)
    case Some(s) =>
      var line := html[s..LineEnd(html, s)];
      HashPass(StripFlag(ReplaceFirst(html, line, Join(ScriptLines(names), "\n") + "\n" + line)), distDir, disk, digest)
  }

  /** What `compileHTML` leaves on the disk, or the error it throws: the entry page is copied to
      the output, the vendor files next to it, and the page is read back for the main script. */
  function Page(config: Config, appRoot: string, originIndexPath: string, targetIndexPath: string,
                disk: Disk, digest: string -> string): (r: Result<Disk>)
    ensures r.Ok? ==> Grows(disk, r.value) && targetIndexPath in r.value.files
  {
    var originDir := Dirname(originIndexPath);
    var distDir := Dirname(targetIndexPath);
    match CopyPath(disk, originIndexPath, targetIndexPath)
    case Err(e) => Err(e)
    case Ok(copied) =>
      match CopyEach(copied, VendorCopies(appRoot, distDir, config.vendor))
      case Err(e) => Err(e)
      case Ok(withVendors) =>
        CopyPathGrows(disk, originIndexPath, targetIndexPath);
        CopyEachGrows(copied, VendorCopies(appRoot, distDir, config.vendor));
        match ReadFile(withVendors, originIndexPath)
        case Err(e) => Err(e)
        case Ok(index) =>
          match MainScript(index)
          case None => Err(NoMainScript)
          case Some(main) => FromMain(config, appRoot, main, originDir, targetIndexPath, withVendors, digest)
  }

  /** The steps of `compileHTML` from the static copies on, once the main script is known: the
      bundle is written to `out` and the copied page read back. */
  function FromMain(config: Config, appRoot: string, main: string, originDir: string, targetIndexPath: string,
                    disk: Disk, digest: string -> string): (r: Result<Disk>)
    ensures r.Ok? ==> Grows(disk, r.value) && targetIndexPath in r.value.files
  {
    var distDir := Dirname(targetIndexPath);
    match CopyEach(disk, StaticCopies(originDir, distDir, config.statics))
    case Err(e) => Err(e)
    case Ok(withStatics) =>
      CopyEachGrows(disk, StaticCopies(originDir, distDir, config.statics));
      var out := Resolve(distDir, main);
      match Bundle(Resolve(originDir, main), out, config, None)
      case Err(e) => Err(e)
      case Ok(code) =>
        WriteGrows(withStatics, out, code);
        match ReadFile(withStatics.Write(out, code), targetIndexPath)
        case Err(e) => Err(e)
        case Ok(indexHtml) => WithBundle(config.vendor, appRoot, indexHtml, code, out, targetIndexPath, withStatics.Write(out, code), digest)
  }

  /** The disk the text passes read: the polyfill is copied first when the code needs it. */
  function WithPolyfill(appRoot: string, distDir: string, code: string, disk: Disk): Result<Disk>
  {
    if NeedsPolyfill(code) then CopyPath(disk, PolyfillSource(appRoot), PolyfillTarget(distDir)) else Ok(disk)
  }

  /** The polyfill copy when the code needs it, then the text passes; the page is written back.
      What is written at the target is the assembled page for the vendor files and the polyfill,
      on the disk after the polyfill copy. */
  function WithBundle(vendors: seq<Vendor>, appRoot: string, indexHtml: string, code: string, out: string,
                      targetIndexPath: string, disk: Disk, digest: string -> string): (r: Result<Disk>)
    ensures r.Ok? ==> Grows(disk, r.value) && targetIndexPath in r.value.files
    ensures var base := WithPolyfill(appRoot, Dirname(targetIndexPath), code, disk);
            r.Ok? ==>
              && base.Ok?
              && Assemble(indexHtml, VendorFiles(vendors, code), out, Dirname(targetIndexPath), base.value, digest).Ok?
              && r.value == base.value.Write(targetIndexPath,
                   Assemble(indexHtml, VendorFiles(vendors, code), out, Dirname(targetIndexPath), base.value, digest).value)
    ensures !NeedsPolyfill(code) ==> r == Finish(indexHtml, VendorFiles(vendors, code), out, targetIndexPath, disk, digest)
  {
    var distDir := Dirname(targetIndexPath);
    if NeedsPolyfill(code) then
      match CopyPath(disk, PolyfillSource(appRoot), PolyfillTarget(distDir))
      case Err(e) => Err(e)
      case Ok(withPolyfill) =>
        CopyPathGrows(disk, PolyfillSource(appRoot), PolyfillTarget(distDir));
        Finish(indexHtml, VendorFiles(vendors, code), out, targetIndexPath, withPolyfill, digest)
    else Finish(indexHtml, VendorFiles(vendors, code), out, targetIndexPath, disk, digest)
  }

  /** The text passes on the page, which is then written to `targetIndexPath`: the page's text
      there is the assembled page, every other path keeps what it had, and an error of the passes
      is the error of the whole. */
  function Finish(indexHtml: string, names: seq<string>, out: string, targetIndexPath: string, disk: Disk,
                  digest: string -> string): (r: Result<Disk>)
    ensures r.Ok? ==> Grows(disk, r.value) && targetIndexPath in r.value.files
    ensures var page := Assemble(indexHtml, names, out, Dirname(targetIndexPath), disk, digest);
            && (r.Ok? <==> page.Ok?)
            && (r.Err? ==> r.error == page.error)
            && (r.Ok? ==> r.value.files[targetIndexPath] == page.value)
            && (r.Ok? ==> forall q :: q != targetIndexPath ==>
                            (q in r.value.files <==> q in disk.files) && (q in disk.files ==> r.value.files[q] == disk.files[q]))
  {
    match Assemble(indexHtml, names, out, Dirname(targetIndexPath), disk, digest)
    case Err(e) => Err(e)
    case Ok(page) =>
      WriteGrows(disk, targetIndexPath, page);
      Ok(disk.Write(targetIndexPath, page))
  }

  /** A page holding `src="./` has a reference for the hash pass, so that pass does not throw on
      `null.map`. */
  lemma VendorSrcIsReference(h: string, j: nat, distDir: string, disk: Disk, digest: string -> string)
    requires OccursAt(h, VendorSrc, j)
    ensures HashPass(h, distDir, disk, digest) != Err(NoReferences)
  {
    OccursSplit(h, "src=", "\"./", j);
    assert h[j + 4] == h[j + 4..j + 7][0] && h[j + 5] == h[j + 4..j + 7][1];
    MatchAtIff(h, j);
    HashPassNoReferencesIff(h, distDir, disk, digest);
  }

  /** With at least one vendor file the assembled page always gives the hash pass a reference:
      the first `<script src="./vendor/...">` line survives the flag removal. */
  lemma AssembleHasReference(index: string, names: seq<string>, out: string, distDir: string, disk: Disk, digest: string -> string)
    requires names != []
    ensures Assemble(index, names, out, distDir, disk, digest) != Err(NoReferences)
  {
    var html := WithHead(index, names, out, distDir, disk);
    match MarkerStart(html)
    case None =>
    case Some(s) =>
      var block := Join(ScriptLines(names), "\n");
      VendorsBeforeMarker(html, s, block);
      JoinStartsWithFirst(ScriptLines(names), "\n");
      ScriptLineHasVendorSrc(names[0]);
      OccursInPrefix(block, ScriptLine(names[0]), VendorSrc, 10);
      BlockKeepsReference(html[..s], block, html[s..], distDir, disk, digest);
  }

  /** A page with `block` inserted after `front`, where `block` has `src="./` at 10, keeps a
      reference through the flag removal. */
  lemma BlockKeepsReference(front: string, block: string, back: string, distDir: string, disk: Disk, digest: string -> string)
    requires OccursAt(block, VendorSrc, 10)
    ensures HashPass(StripFlag(front + block + "\n" + back), distDir, disk, digest) != Err(NoReferences)
  {
    OccursInMiddle(front, block, "\n" + back, VendorSrc, 10);
    Assoc(front + block, "\n", back);
    StripKeepsVendorSrc(front + block + "\n" + back, |front| + 10);
    var h := StripFlag(front + block + "\n" + back);
    var j :| OccursAt(h, VendorSrc, j);
    VendorSrcIsReference(h, j, distDir, disk, digest);
  }

  /** `src="` and a first value character that is not `<`, `?` or `&`: the main script's own
      reference, as the page holds it when the main script's path starts with such a character. */
  predicate MainRefAt(t: string, j: int)
  {
    && OccursAt(t, "src=\"", j) && j + 5 < |t| && IsValueChar(t[j + 5])
    && t[j + 5] != '<' && t[j + 5] != '?' && t[j + 5] != '&'
  }

  /** The main script pattern, matched with a path that starts with such a character, leaves
      such a reference. */
  lemma MainAtRef(t: string, i: nat, v: string)
    requires MainAt(t, i, v) && IsValueChar(v[0]) && v[0] != '<' && v[0] != '?' && v[0] != '&'
    ensures MainRefAt(t, i)
  {
    MainAtPieces(t, i, v);
    assert t[i + 5] == t[i + 5..i + 5 + |v|][0];
  }

  /** The same six characters elsewhere are the reference there too. */
  lemma SameWindowRef(t: string, j: nat, r: string, d: nat)
    requires MainRefAt(t, j) && d + 6 <= |r| && r[d..d + 6] == t[j..j + 6]
    ensures MainRefAt(r, d)
  {
    assert r[d..d + 5] == r[d..d + 6][..5] && t[j..j + 5] == t[j..j + 6][..5];
    assert r[d + 5] == r[d..d + 6][5] && t[j + 5] == t[j..j + 6][5];
  }

  /** A window of `t` after an insertion point moves right by the inserted text. */
  lemma WindowAfterInsert(t: string, k: nat, b: string, j: nat, n: nat)
    requires k <= j && j + n <= |t|
    ensures (t[..k] + b + t[k..])[j + |b|..j + |b| + n] == t[j..j + n]
  {
    var r := t[..k] + b + t[k..];
    forall x | j <= x < j + n
      ensures r[x + |b|] == t[x]
    {
    }
  }

  /** A window of `t` before an insertion point stays where it is. */
  lemma WindowBeforeInsert(t: string, k: nat, b: string, j: nat, n: nat)
    requires j + n <= k <= |t|
    ensures (t[..k] + b + t[k..])[j..j + n] == t[j..j + n]
  {
    var r := t[..k] + b + t[k..];
    forall x | j <= x < j + n
      ensures r[x] == t[x]
    {
    }
  }

  /** Text inserted outside the six characters of the reference keeps it. */
  lemma InsertKeepsMainRef(t: string, j: nat, k: nat, b: string)
    requires MainRefAt(t, j) && k <= |t| && (k <= j || j + 6 <= k)
    ensures MainRefAt(t[..k] + b + t[k..], if k <= j then j + |b| else j)
  {
    if k <= j {
      WindowAfterInsert(t, k, b, j, 6);
    } else {
      WindowBeforeInsert(t, k, b, j, 6);
    }
    SameWindowRef(t, j, t[..k] + b + t[k..], if k <= j then j + |b| else j);
  }

  /** The first five characters of the reference. */
  lemma MainRefChars(t: string, j: nat)
    requires MainRefAt(t, j)
    ensures t[j] == 's' && t[j + 1] == 'r' && t[j + 2] == 'c' && t[j + 3] == '=' && t[j + 4] == '"'
  {
    var w := t[j..j + 5];
    assert w == "src=\"";
    assert t[j] == w[0] && t[j + 1] == w[1] && t[j + 2] == w[2] && t[j + 3] == w[3] && t[j + 4] == w[4];
  }

  /** A `<` lies outside the six characters of the reference. */
  lemma LessThanMissesMainRef(t: string, j: nat, k: nat)
    requires MainRefAt(t, j) && k < |t| && t[k] == '<'
    ensures k <= j || j + 6 <= k
  {
    MainRefChars(t, j);
  }

  /** A head insertion keeps the reference: `</head>` starts with `<`, which the reference has
      nowhere. */
  lemma HeadKeepsMainRef(html: string, block: string, j: nat) returns (j': nat)
    requires MainRefAt(html, j)
    ensures MainRefAt(InsertHead(html, block), j')
  {
    HeadInsertion(html, block);
    match IndexOf(html, HeadClose)
    case None =>
      j' := j;
    case Some(k) =>
      assert FirstAt(html, HeadClose, k);
      assert InsertHead(html, block) == html[..k] + block + "\n" + html[k..];
      assert html[k] == html[k..k + 7][0] == '<';
      LessThanMissesMainRef(html, j, k);
      Assoc(html[..k], block, "\n");
      InsertKeepsMainRef(html, j, k, block + "\n");
      j' := if k <= j then j + |block + "\n"| else j;
  }

  /** The vendor block before the marker line keeps the reference: a line starts only after a
      line break, and the reference has none before its path. */
  lemma MarkerKeepsMainRef(html: string, s: nat, block: string, j: nat) returns (j': nat)
    requires MainRefAt(html, j) && MarkerStart(html) == Some(s)
    ensures MainRefAt(html[..s] + block + "\n" + html[s..], j')
  {
    MainRefChars(html, j);
    Assoc(html[..s], block, "\n");
    InsertKeepsMainRef(html, j, s, block + "\n");
    j' := if s <= j then j + |block + "\n"| else j;
  }

  /** A flag parameter never overlaps the reference: it starts with `?` or `&`, which the
      reference does not hold, and holds no `s`. */
  lemma FlagMissesMainRef(t: string, j: nat, k: nat)
    requires MainRefAt(t, j) && FlagParamAt(t, k)
    ensures k >= j + 6 || k + 1 + |Flag| <= j
  {
    MainRefChars(t, j);
    assert t[k + 1..k + 13] == Flag;
    forall x | k + 1 <= x < k + 13
      ensures t[x] != 's'
    {
      assert t[x] == Flag[x - k - 1];
    }
  }

  /** Removing the flag keeps the reference. */
  lemma StripKeepsMainRef(t: string, j: nat) returns (j': nat)
    requires MainRefAt(t, j)
    ensures MainRefAt(StripFlag(t), j')
  {
    match FlagParamFrom(t, 0)
    case None =>
      j' := j;
    case Some(k) =>
      FlagMissesMainRef(t, j, k);
      var w := t[j..j + 6];
      CutKeeps(t, k, k + 1 + |Flag|, w, j);
      j' := if j + 6 <= k then j else j - (1 + |Flag|);
      SameWindowRef(t, j, StripFlag(t), j');
  }

  /** A page holding the reference has a match for the hash pass. */
  lemma MainRefIsReference(h: string, j: nat, distDir: string, disk: Disk, digest: string -> string)
    requires MainRefAt(h, j)
    ensures HashPass(h, distDir, disk, digest) != Err(NoReferences)
  {
    MainRefChars(h, j);
    assert h[j..j + 4] == "src=";
    MatchAtIff(h, j);
    HashPassNoReferencesIff(h, distDir, disk, digest);
  }

  /** Without any vendor line the page still gives the hash pass a reference when the main
      script's `src="` is followed by a value character other than `<`, `?` or `&`: the head
      insertions, the block before the marker and the flag removal all keep it. */
  lemma AssembleHasMainReference(index: string, names: seq<string>, out: string, distDir: string, disk: Disk,
                                 digest: string -> string, j: nat)
    requires MainRefAt(index, j)
    ensures Assemble(index, names, out, distDir, disk, digest) != Err(NoReferences)
  {
    var j1 := HeadKeepsMainRef(index, Join(PreloadLines(names), "\n"), j);
    var h1 := InsertHead(index, Join(PreloadLines(names), "\n"));
    var html := WithHead(index, names, out, distDir, disk);
    var j2 := j1;
    if disk.Exists(CssPath(out)) {
      j2 := HeadKeepsMainRef(h1, StylesheetLine(CssHref(CssPath(out), distDir)), j1);
    }
    assert MainRefAt(html, j2);
    AssembleSteps(index, names, out, distDir, disk, digest);
    match MarkerStart(html)
    case None =>
    case Some(s) =>
      var block := Join(ScriptLines(names), "\n");
      var j3 := MarkerKeepsMainRef(html, s, block, j2);
      var j4 := StripKeepsMainRef(html[..s] + block + "\n" + html[s..], j3);
      MainRefIsReference(StripFlag(html[..s] + block + "\n" + html[s..]), j4, distDir, disk, digest);
  }

  /** `compileHTML` with at least one configured vendor never fails for want of a reference. */
  lemma PageHasReference(config: Config, appRoot: string, originIndexPath: string, targetIndexPath: string,
                         disk: Disk, digest: string -> string)
    requires config.vendor != []
    ensures Page(config, appRoot, originIndexPath, targetIndexPath, disk, digest) != Err(NoReferences)
  {
    var distDir := Dirname(targetIndexPath);
    var copied := CopyPath(disk, originIndexPath, targetIndexPath);
    if copied.Ok? {
      var withVendors := CopyEach(copied.value, VendorCopies(appRoot, distDir, config.vendor));
      if withVendors.Err? {
        CopyEachFails(copied.value, VendorCopies(appRoot, distDir, config.vendor));
      } else if originIndexPath in withVendors.value.files && MainScript(withVendors.value.files[originIndexPath]).Some? {
        FromMainHasReference(config, appRoot, MainScript(withVendors.value.files[originIndexPath]).value,
                             Dirname(originIndexPath), targetIndexPath, withVendors.value, digest);
      }
    }
  }

  lemma FromMainHasReference(config: Config, appRoot: string, main: string, originDir: string, targetIndexPath: string,
                             disk: Disk, digest: string -> string)
    requires config.vendor != []
    ensures FromMain(config, appRoot, main, originDir, targetIndexPath, disk, digest) != Err(NoReferences)
  {
    var distDir := Dirname(targetIndexPath);
    var withStatics := CopyEach(disk, StaticCopies(originDir, distDir, config.statics));
    if withStatics.Err? {
      CopyEachFails(disk, StaticCopies(originDir, distDir, config.statics));
    } else {
      var out := Resolve(distDir, main);
      var code := Bundle(Resolve(originDir, main), out, config, None);
      if code.Ok? && targetIndexPath in withStatics.value.Write(out, code.value).files {
        var written := withStatics.value.Write(out, code.value);
        WithBundleHasReference(config.vendor, appRoot, written.files[targetIndexPath], code.value, out, targetIndexPath, written, digest);
      }
    }
  }

  /** From the page read back on, `compileHTML` never fails for want of a reference when there
      is a vendor line or the polyfill line, or when the page holds the main script's reference. */
  lemma WithBundleHasReference(vendors: seq<Vendor>, appRoot: string, indexHtml: string, code: string, out: string,
                               targetIndexPath: string, disk: Disk, digest: string -> string)
    requires vendors != [] || NeedsPolyfill(code) || exists j :: MainRefAt(indexHtml, j)
    ensures WithBundle(vendors, appRoot, indexHtml, code, out, targetIndexPath, disk, digest) != Err(NoReferences)
  {
    var distDir := Dirname(targetIndexPath);
    var names := VendorFiles(vendors, code);
    var base := WithPolyfill(appRoot, distDir, code, disk);
    if base.Ok? {
      if names != [] {
        AssembleHasReference(indexHtml, names, out, distDir, base.value, digest);
      } else {
        var j :| MainRefAt(indexHtml, j);
        AssembleHasMainReference(indexHtml, names, out, distDir, base.value, digest, j);
      }
    }
  }

  /** A successful `compileHTML` has copied the page and every vendor file into the output, and
      removed nothing. */
  lemma PageCopiesVendors(config: Config, appRoot: string, originIndexPath: string, targetIndexPath: string,
                          disk: Disk, digest: string -> string)
    requires Page(config, appRoot, originIndexPath, targetIndexPath, disk, digest).Ok?
    ensures var after := Page(config, appRoot, originIndexPath, targetIndexPath, disk, digest).value;
            && Grows(disk, after) && targetIndexPath in after.files
            && forall k :: 0 <= k < |config.vendor| ==>
                 after.Exists(Resolve(Resolve(Dirname(targetIndexPath), "vendor/"), VendorName(config.vendor[k])))
  {
    var distDir := Dirname(targetIndexPath);
    var copies := VendorCopies(appRoot, distDir, config.vendor);
    var copied := CopyPath(disk, originIndexPath, targetIndexPath).value;
    var withVendors := CopyEach(copied, copies).value;
    CopyEachGrows(copied, copies);
    var index := withVendors.files[originIndexPath];
    var main := MainScript(index).value;
    var after := Page(config, appRoot, originIndexPath, targetIndexPath, disk, digest).value;
    assert after == FromMain(config, appRoot, main, Dirname(originIndexPath), targetIndexPath, withVendors, digest).value;
    forall k | 0 <= k < |config.vendor|
      ensures after.Exists(Resolve(Resolve(distDir, "vendor/"), VendorName(config.vendor[k])))
    {
      assert copies[k].1 == Resolve(Resolve(distDir, "vendor/"), VendorName(config.vendor[k]));
    }
  }

  // ---------------------------------------------------------------------------------------
  // compileHTML as the code runs it

  /** `files.forEach(f => fs.copySync(...))`: the copies run in order and the first source that
      does not exist stops them. */
  method CopyAll(disk: Disk, copies: seq<(string, string)>) returns (r: Result<Disk>)
    ensures r == CopyEach(disk, copies)
  {
    var d := disk;
    var i := 0;
    while i < |copies|
      invariant i <= |copies|
      invariant CopyEach(disk, copies[..i]) == Ok(d)
    {
      ThreadStep(CopyStep, disk, copies, i);
      var next := CopyPath(d, copies[i].0, copies[i].1);
      if next.Err? {
        return next;
      }
      d := next.value;
      i := i + 1;
    }
    assert copies[..i] == copies;
    r := Ok(d);
  }

  /** The `config.vendor.forEach` of `compileHTML`: for each vendor it adds the `<script>` and the
      preload line of its shipped file, then copies that file into `vendor/`. */
  method VendorPass(disk: Disk, appRoot: string, distDir: string, vendors: seq<Vendor>)
    returns (r: Result<(seq<string>, seq<string>, Disk)>)
    ensures var copied := CopyEach(disk, VendorCopies(appRoot, distDir, vendors));
            && (r.Ok? <==> copied.Ok?)
            && (r.Err? ==> r.error == copied.error)
            && (r.Ok? ==> r.value == (ScriptLines(VendorNames(vendors)), PreloadLines(VendorNames(vendors)), copied.value))
  {
    var scripts: seq<string> := [];
    var preload: seq<string> := [];
    var copies := VendorCopies(appRoot, distDir, vendors);
    var d := disk;
    var i := 0;
    while i < |vendors|
      invariant i <= |vendors|
      invariant CopyEach(disk, copies[..i]) == Ok(d)
      invariant scripts == ScriptLines(VendorNames(vendors)[..i])
      invariant preload == PreloadLines(VendorNames(vendors)[..i])
    {
      var file := vendors[i].Shipped();
      var fileName := Basename(file);
      LinesSnoc(VendorNames(vendors), i);
      scripts := scripts + [ScriptLine(fileName)];
      preload := preload + [PreloadLine(fileName)];
      ThreadStep(CopyStep, disk, copies, i);
      var next := CopyPath(d, Resolve(Resolve(appRoot, "node_modules/"), file), Resolve(Resolve(distDir, "vendor/"), fileName));
      if next.Err? {
        return Err(next.error);
      }
      d := next.value;
      i := i + 1;
    }
    assert copies[..i] == copies;
    assert VendorNames(vendors)[..i] == VendorNames(vendors);
    r := Ok((scripts, preload, d));
  }

  /** The `indexHtml` passes of `compileHTML`, once the lists of vendor lines are complete. */
  method AssembleHtml(index: string, scripts: seq<string>, preload: seq<string>, ghost names: seq<string>,
                      out: string, distDir: string, disk: Disk, digest: string -> string) returns (r: Result<string>)
    requires scripts == ScriptLines(names) && preload == PreloadLines(names)
    ensures r == Assemble(index, names, out, distDir, disk, digest)
  {
    var indexHtml := InsertHead(index, Join(preload, "\n"));
    var cssPath := CssPath(out);
    if disk.Exists(cssPath) {
      indexHtml := InsertHead(indexHtml, StylesheetLine(CssHref(cssPath, distDir)));
    }
    var marker := MarkerStart(indexHtml);
    if marker.None? {
      return Err(NoMarkerLine);
    }
    var line := indexHtml[marker.value..LineEnd(indexHtml, marker.value)];
    indexHtml := ReplaceFirst(indexHtml, line, Join(scripts, "\n") + "\n" + line);
    indexHtml := StripFlag(indexHtml);
    r := AddSrcHash(indexHtml, distDir, disk, digest);
  }

  /** `compileHTML` as the code runs it: the page copy, the vendor pass, the read of the entry
      page, then the rest from the main script on. */
  method CompileHtml(config: Config, appRoot: string, originIndexPath: string, targetIndexPath: string,
                     disk: Disk, digest: string -> string) returns (r: Result<Disk>)
    ensures r == Page(config, appRoot, originIndexPath, targetIndexPath, disk, digest)
  {
    var originDir := Dirname(originIndexPath);
    var distDir := Dirname(targetIndexPath);
    var copied := CopyPath(disk, originIndexPath, targetIndexPath);
    if copied.Err? {
      return Err(copied.error);
    }
    var vendorPass := VendorPass(copied.value, appRoot, distDir, config.vendor);
    if vendorPass.Err? {
      return Err(vendorPass.error);
    }
    var (scripts, preload, d) := vendorPass.value;
    var index := ReadFile(d, originIndexPath);
    if index.Err? {
      return Err(index.error);
    }
    var main := MainScript(index.value);
    if main.None? {
      return Err(NoMainScript);
    }
    r := CompileFromMain(config, appRoot, main.value, originDir, targetIndexPath, d, digest, scripts, preload);
  }

  /** The rest of `compileHTML`, from the static copies on, with the vendor lines collected so far. */
  method CompileFromMain(config: Config, appRoot: string, main: string, originDir: string, targetIndexPath: string,
                         disk: Disk, digest: string -> string, scripts: seq<string>, preload: seq<string>)
    returns (r: Result<Disk>)
    requires scripts == ScriptLines(VendorNames(config.vendor)) && preload == PreloadLines(VendorNames(config.vendor))
    ensures r == FromMain(config, appRoot, main, originDir, targetIndexPath, disk, digest)
  {
    var distDir := Dirname(targetIndexPath);
    var copied := CopyAll(disk, StaticCopies(originDir, distDir, config.statics));
    if copied.Err? {
      return Err(copied.error);
    }
    var out := Resolve(distDir, main);
    var code := Bundle(Resolve(originDir, main), out, config, None);
    if code.Err? {
      return Err(code.error);
    }
    var d := copied.value.Write(out, code.value);
    var indexHtml := ReadFile(d, targetIndexPath);
    if indexHtml.Err? {
      return Err(indexHtml.error);
    }
    r := CompileWithBundle(config.vendor, appRoot, indexHtml.value, code.value, out, targetIndexPath, d, digest, scripts, preload);
  }

  /** The polyfill step of `compileHTML`, the page passes after it, and the write of the page. */
  method CompileWithBundle(vendors: seq<Vendor>, appRoot: string, indexHtml: string, code: string, out: string,
                           targetIndexPath: string, disk: Disk, digest: string -> string, scripts: seq<string>, preload: seq<string>)
    returns (r: Result<Disk>)
    requires scripts == ScriptLines(VendorNames(vendors)) && preload == PreloadLines(VendorNames(vendors))
    ensures r == WithBundle(vendors, appRoot, indexHtml, code, out, targetIndexPath, disk, digest)
  {
    var distDir := Dirname(targetIndexPath);
    var scripts, preload, d := scripts, preload, disk;
    ghost var names := VendorFiles(vendors, code);
    PolyfillLines(vendors, code);
    if NeedsPolyfill(code) {
      var copied := CopyPath(d, PolyfillSource(appRoot), PolyfillTarget(distDir));
      if copied.Err? {
        return Err(copied.error);
      }
      d := copied.value;
      scripts := scripts + [ScriptLine(PolyfillName)];
      preload := preload + [PreloadLine(PolyfillName)];
    }
    assert WithBundle(vendors, appRoot, indexHtml, code, out, targetIndexPath, disk, digest)
           == Finish(indexHtml, names, out, targetIndexPath, d, digest);
    var page := AssembleHtml(indexHtml, scripts, preload, names, out, distDir, d, digest);
    if page.Err? {
      return Err(page.error);
    }
    r := Ok(d.Write(targetIndexPath, page.value));
  }
}
