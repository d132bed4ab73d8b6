/** The reference scanner of `addSrcHash`: the global match of
    `/(href|src)=("|')?[^ "']+\2?/gm` over an HTML text. */
module RefScanner {
  import opened Outcomes
  import opened Text

  predicate IsQuote(c: char)
  {
    c == '"' || c == '\''
  }

  /** `[^ "']`: anything but a space or a quote, line breaks included. */
  predicate IsValueChar(c: char)
  {
    c != ' ' && !IsQuote(c)
  }

  /** Every character in `t[lo..hi]` may stand in a value. */
  ghost predicate ValueChars(t: string, lo: nat, hi: nat)
    requires lo <= hi <= |t|
  {
    forall j :: lo <= j < hi ==> IsValueChar(t[j])
  }

  /** Length of the run of value characters starting at `k`. */
  function RunLen(t: string, k: nat): (n: nat)
    requires k <= |t|
    decreases |t| - k
    ensures k + n <= |t|
    ensures ValueChars(t, k, k + n)
    ensures k + n == |t| || !IsValueChar(t[k + n])
  {
    if k == |t| || !IsValueChar(t[k]) then 0 else 1 + RunLen(t, k + 1)
  }

  /** One match: `name=` then an optional opening quote, the value, and the closing quote if
      the one that opened follows the value. */
  datatype Ref = Ref(start: nat, name: string, open: string, value: string, close: string)
  {
    function Text(): string
    {
      name + "=" + open + value + close
    }

    function End(): nat
    {
      start + |Text()|
    }

    /** Where the value ends in the document. */
    function ValueEnd(): nat
    {
      start + |name| + 1 + |open| + |value|
    }

    ghost predicate WellFormed()
    {
      && (name == "href" || name == "src")
      && (open == "" || (|open| == 1 && IsQuote(open[0])))
      && (close == "" || close == open)
      && |value| > 0
      && (forall j :: 0 <= j < |value| ==> IsValueChar(value[j]))
    }
  }

  /** A value can begin right after the `=` at `p`: a value character, or a quote and then one. */
  predicate ValueStartsAt(t: string, p: int)
  {
    0 <= p < |t| && (IsValueChar(t[p]) || (IsQuote(t[p]) && p + 1 < |t| && IsValueChar(t[p + 1])))
  }

  /** The attribute name the pattern accepts at `i`: `href` is tried before `src`. */
  function NameAt(t: string, i: nat): string
  {
    if i + 5 <= |t| && t[i] == 'h' && t[i + 1] == 'r' && t[i + 2] == 'e' && t[i + 3] == 'f' && t[i + 4] == '=' then "href"
    else if i + 4 <= |t| && t[i] == 's' && t[i + 1] == 'r' && t[i + 2] == 'c' && t[i + 3] == '=' then "src"
    else ""
  }

  lemma NameAtIff(t: string, i: nat)
    ensures NameAt(t, i) == "href" <==> OccursAt(t, "href=", i)
    ensures NameAt(t, i) == "src" <==> OccursAt(t, "src=", i)
    ensures NameAt(t, i) == "" <==> !OccursAt(t, "href=", i) && !OccursAt(t, "src=", i)
  {
    if OccursAt(t, "href=", i) {
      assert t[i..i + 5][0] == 'h' && t[i..i + 5][1] == 'r' && t[i..i + 5][2] == 'e' && t[i..i + 5][3] == 'f' && t[i..i + 5][4] == '=';
    }
    if OccursAt(t, "src=", i) {
      assert t[i..i + 4][0] == 's' && t[i..i + 4][1] == 'r' && t[i..i + 4][2] == 'c' && t[i..i + 4][3] == '=';
    }
    if NameAt(t, i) == "href" {
      assert t[i..i + 5] == "href=";
    }
    if NameAt(t, i) == "src" {
      assert t[i..i + 4] == "src=";
    }
  }

  /** The optional opening quote at `j`. */
  function OpenAt(t: string, j: nat): string
  {
    if j < |t| && IsQuote(t[j]) then [t[j]] else ""
  }

  /** The run of value characters at `k` is exactly `n` long when `n` value characters are
      followed by the end or by something else. */
  lemma {:induction false} RunLenExact(t: string, k: nat, n: nat)
    requires k + n <= |t| && ValueChars(t, k, k + n)
    requires k + n == |t| || !IsValueChar(t[k + n])
    decreases n
    ensures RunLen(t, k) == n
  {
    if n > 0 {
      RunLenExact(t, k + 1, n - 1);
    }
  }

  /** The match the regular expression makes when tried at `i`. There is no word boundary,
      so the `src=` inside `data-src=` matches too. */
  function MatchAt(t: string, i: nat): (r: Option<Ref>)
    ensures r.Some? ==> r.value.start == i && |r.value.Text()| > 0
  {
    var name := NameAt(t, i);
    if name == "" then None
    else
      var j := i + |name| + 1;
      var open := OpenAt(t, j);
      var k := j + |open|;
      if k > |t| then None
      else
        var n := RunLen(t, k);
        if n == 0 then None
        else
          var e := k + n;
          var close := if open != "" && e < |t| && t[e] == open[0] then open else "";
          Some(Ref(i, name, open, t[k..e], close))
  }

  /** Where the pattern matches: `href=` or `src=`, then a value character, or a quote and then
      a value character. */
  lemma MatchAtIff(t: string, i: nat)
    ensures MatchAt(t, i).Some? <==> (OccursAt(t, "href=", i) && ValueStartsAt(t, i + 5))
                                     || (OccursAt(t, "src=", i) && ValueStartsAt(t, i + 4))
  {
    NameAtIff(t, i);
  }

  /** The pieces `MatchAt` cuts at `i` when an unquoted value `v` follows `name=`. */
  lemma UnquotedParts(t: string, i: nat, name: string, v: string, k: nat, e: nat)
    requires name == "href" || name == "src"
    requires k == i + |name| + 1 && e == k + |v|
    requires OccursAt(t, name + "=" + v, i) && v != [] && forall j :: 0 <= j < |v| ==> IsValueChar(v[j])
    requires e == |t| || !IsValueChar(t[e])
    ensures NameAt(t, i) == name && OpenAt(t, k) == "" && RunLen(t, k) == |v| && t[k..e] == v
  {
    assert t[i..e] == name + "=" + v;
    assert t[i..k] == name + "=" by {
      assert t[i..k] == t[i..e][..|name| + 1];
    }
    assert t[k..e] == v by {
      assert t[k..e] == t[i..e][|name| + 1..];
    }
    NameAtIff(t, i);
    if name == "src" {
      assert t[i] == 's';
    }
    assert t[k] == v[0];
    assert ValueChars(t, k, e) by {
      forall j | k <= j < e
        ensures IsValueChar(t[j])
      {
        assert t[j] == v[j - k];
      }
    }
    RunLenExact(t, k, |v|);
  }

  /** An unquoted value `v` after `name=` is matched whole, up to the end or the next
      character that cannot stand in a value. */
  lemma MatchAtUnquoted(t: string, i: nat, name: string, v: string)
    requires name == "href" || name == "src"
    requires OccursAt(t, name + "=" + v, i) && v != [] && forall j :: 0 <= j < |v| ==> IsValueChar(v[j])
    requires i + |name| + 1 + |v| == |t| || !IsValueChar(t[i + |name| + 1 + |v|])
    ensures MatchAt(t, i) == Some(Ref(i, name, "", v, ""))
  {
    UnquotedParts(t, i, name, v, i + |name| + 1, i + |name| + 1 + |v|);
  }

  /** The pieces `MatchAt` cuts at `i`, named once for the lemmas below. */
  lemma MatchAtParts(t: string, i: nat) returns (j: nat, k: nat, e: nat)
    requires MatchAt(t, i).Some?
    ensures MatchAt(t, i).value.name == NameAt(t, i) != "" && j == i + |NameAt(t, i)| + 1
    ensures MatchAt(t, i).value.open == OpenAt(t, j) && k == j + |OpenAt(t, j)| && k <= |t|
    ensures e == k + RunLen(t, k) && e > k && MatchAt(t, i).value.value == t[k..e]
    ensures MatchAt(t, i).value.close == (if OpenAt(t, j) != "" && e < |t| && t[e] == OpenAt(t, j)[0] then OpenAt(t, j) else "")
  {
    var name := NameAt(t, i);
    j := i + |name| + 1;
    k := j + |OpenAt(t, j)|;
    e := k + RunLen(t, k);
  }

  /** A match is a well-formed reference. */
  lemma MatchAtWellFormed(t: string, i: nat)
    requires MatchAt(t, i).Some?
    ensures MatchAt(t, i).value.WellFormed()
  {
    var j, k, e := MatchAtParts(t, i);
  }

  /** A name the pattern accepts stands at `i`, followed by `=`. */
  lemma NameOccurs(t: string, i: nat)
    requires NameAt(t, i) != ""
    ensures OccursAt(t, NameAt(t, i) + "=", i)
  {
    NameAtIff(t, i);
  }

  /** The pieces `MatchAt` cuts stand one after another in the document from `i` on. */
  lemma PiecesOccur(t: string, i: nat, m: Ref, j: nat, k: nat, e: nat)
    requires m.name == NameAt(t, i) && m.name != "" && j == i + |m.name| + 1
    requires m.open == OpenAt(t, j) && k == j + |m.open| && k <= e <= |t| && m.value == t[k..e]
    requires m.close == "" || (e < |t| && m.close == [t[e]])
    ensures OccursAt(t, m.Text(), i)
  {
    NameOccurs(t, i);
    assert OccursAt(t, m.open, j);
    assert OccursAt(t, m.value, k);
    assert OccursAt(t, m.close, e);
    OccursConcat(t, m.name + "=", m.open, i);
    OccursConcat(t, m.name + "=" + m.open, m.value, i);
    OccursConcat(t, m.name + "=" + m.open + m.value, m.close, i);
  }

  /** A match's text stands in the document at `i`. */
  lemma MatchAtOccurs(t: string, i: nat)
    requires MatchAt(t, i).Some?
    ensures OccursAt(t, MatchAt(t, i).value.Text(), i)
  {
    var m := MatchAt(t, i).value;
    var j, k, e := MatchAtParts(t, i);
    PiecesOccur(t, i, m, j, k, e);
  }

  /** A match's value is as long as it can be, and its quote closes whenever the same quote
      follows the value. */
  lemma MatchAtMaximal(t: string, i: nat)
    requires MatchAt(t, i).Some?
    ensures var m := MatchAt(t, i).value; var e := i + |m.name| + 1 + |m.open| + |m.value|;
            && (e == |t| || !IsValueChar(t[e]))
            && (m.open != "" && e < |t| && t[e] == m.open[0] ==> m.close == m.open)
            && (m.open == "" ==> !IsQuote(t[i + |m.name| + 1]))
  {
    var j, k, e := MatchAtParts(t, i);
  }

  /** A pattern tried at one position: a match found at `i` starts at `i` and is not empty. */
  ghost predicate Sticky(at: (string, nat) -> Option<Ref>)
  {
    forall t: string, i: nat :: at(t, i).Some? ==> at(t, i).value.start == i && |at(t, i).value.Text()| > 0
  }

  /** What the `g` flag makes of a pattern `at` tried at one position: scan from `i` on, and after
      a match go on where it ends, otherwise at the next position. */
  function ScanWith(at: (string, nat) -> Option<Ref>, t: string, i: nat): seq<Ref>
    requires Sticky(at)
    decreases |t| - i
  {
    if i >= |t| then []
    else
      match at(t, i)
      case None => ScanWith(at, t, i + 1)
      case Some(m) => [m] + ScanWith(at, t, m.End())
  }

  lemma MatchAtSticky()
    ensures Sticky(MatchAt)
  {
  }

  /** `txt.match(/(href|src)=("|')?[^ "']+\2?/gm)`, with `[]` for `null`. */
  function Scan(t: string): seq<Ref>
  {
    MatchAtSticky();
    ScanWith(MatchAt, t, 0)
  }

  /** Every element of `r` is the match of `at` at its own start, at or after `i`. */
  ghost predicate AllMatches(at: (string, nat) -> Option<Ref>, t: string, i: nat, r: seq<Ref>)
  {
    forall k :: 0 <= k < |r| ==> i <= r[k].start && at(t, r[k].start) == Some(r[k])
  }

  /** The elements of `r` follow one another in the text without overlapping. */
  ghost predicate InTextOrder(r: seq<Ref>)
  {
    forall k :: 0 <= k < |r| - 1 ==> r[k].End() <= r[k + 1].start
  }

  /** `at` matches nowhere in `[lo, hi)`. */
  ghost predicate NoMatchIn(at: (string, nat) -> Option<Ref>, t: string, lo: nat, hi: nat)
  {
    forall j :: lo <= j < hi ==> at(t, j).None?
  }

  /** Position `j` lies inside one of the tokens of `r`. */
  ghost predicate Covered(r: seq<Ref>, j: nat)
  {
    exists k :: 0 <= k < |r| && r[k].start <= j < r[k].End()
  }

  /** Every token is the match of the pattern at its own start. */
  lemma {:induction false} ScanSound(at: (string, nat) -> Option<Ref>, t: string, i: nat)
    requires Sticky(at)
    decreases |t| - i
    ensures AllMatches(at, t, i, ScanWith(at, t, i))
  {
    if i < |t| {
      var o := at(t, i);
      if o.None? {
        ScanSound(at, t, i + 1);
      } else {
        var m := o.value;
        var rest := ScanWith(at, t, m.End());
        ScanSound(at, t, m.End());
        var r := [m] + rest;
        assert ScanWith(at, t, i) == r;
        forall k | 0 <= k < |r|
          ensures i <= r[k].start && at(t, r[k].start) == Some(r[k])
        {
          if k > 0 {
            assert r[k] == rest[k - 1];
          }
        }
      }
    }
  }

  /** The tokens come in text order without overlapping. */
  lemma {:induction false} ScanOrdered(at: (string, nat) -> Option<Ref>, t: string, i: nat)
    requires Sticky(at)
    decreases |t| - i
    ensures InTextOrder(ScanWith(at, t, i))
  {
    if i < |t| {
      var o := at(t, i);
      if o.None? {
        ScanOrdered(at, t, i + 1);
      } else {
        var m := o.value;
        var rest := ScanWith(at, t, m.End());
        ScanSound(at, t, m.End());
        ScanOrdered(at, t, m.End());
        var r := [m] + rest;
        assert ScanWith(at, t, i) == r;
        forall k | 0 <= k < |r| - 1
          ensures r[k].End() <= r[k + 1].start
        {
          assert r[k + 1] == rest[k];
          if k > 0 { assert r[k] == rest[k - 1]; }
        }
      }
    }
  }

  /** The scan comes back empty exactly when the pattern matches nowhere. */
  lemma {:induction false} ScanEmptyIff(at: (string, nat) -> Option<Ref>, t: string, i: nat)
    requires Sticky(at)
    decreases |t| - i
    ensures ScanWith(at, t, i) == [] <==> NoMatchIn(at, t, i, |t|)
  {
    if i < |t| && at(t, i).None? {
      ScanEmptyIff(at, t, i + 1);
    }
  }

  /** The first token is the leftmost match. */
  lemma {:induction false} ScanLeftmost(at: (string, nat) -> Option<Ref>, t: string, i: nat)
    requires Sticky(at)
    requires ScanWith(at, t, i) != []
    decreases |t| - i
    ensures NoMatchIn(at, t, i, ScanWith(at, t, i)[0].start)
  {
    if at(t, i).None? {
      ScanLeftmost(at, t, i + 1);
    }
  }

  /** After a token the scan resumes right where that token ends. */
  lemma {:induction false} ScanResumes(at: (string, nat) -> Option<Ref>, t: string, i: nat)
    requires Sticky(at)
    requires ScanWith(at, t, i) != []
    decreases |t| - i
    ensures ScanWith(at, t, i)[1..] == ScanWith(at, t, ScanWith(at, t, i)[0].End())
  {
    if at(t, i).None? {
      ScanResumes(at, t, i + 1);
    } else {
      var m := at(t, i).value;
      assert ScanWith(at, t, i) == [m] + ScanWith(at, t, m.End());
    }
  }

  /** No match is skipped: every position where the pattern matches lies inside some token. */
  lemma {:induction false} ScanCovers(at: (string, nat) -> Option<Ref>, t: string, i: nat, j: nat)
    requires Sticky(at)
    requires i <= j < |t| && at(t, j).Some?
    decreases |t| - i
    ensures Covered(ScanWith(at, t, i), j)
  {
    var r := ScanWith(at, t, i);
    match at(t, i)
    case None =>
      ScanCovers(at, t, i + 1, j);
    case Some(m) =>
      if j < m.End() {
        assert r[0] == m && r[0].start <= j < r[0].End();
      } else {
        var rest := ScanWith(at, t, m.End());
        ScanCovers(at, t, m.End(), j);
        var k :| 0 <= k < |rest| && rest[k].start <= j < rest[k].End();
        assert r[k + 1] == rest[k];
      }
  }

  /** Skipping positions where nothing matches, the scan takes the next match and goes on after it. */
  lemma {:induction false} ScanNext(at: (string, nat) -> Option<Ref>, t: string, i: nat, m: Ref)
    requires Sticky(at)
    requires i <= m.start < |t| && at(t, m.start) == Some(m)
    requires NoMatchIn(at, t, i, m.start)
    decreases m.start - i
    ensures ScanWith(at, t, i) == [m] + ScanWith(at, t, m.End())
  {
    if i < m.start {
      ScanNext(at, t, i + 1, m);
    }
  }

  /** A text in which the pattern matches at exactly one place scans to that one match. */
  lemma ScanSingle(at: (string, nat) -> Option<Ref>, t: string, i: nat, m: Ref)
    requires Sticky(at)
    requires i <= m.start < |t| && at(t, m.start) == Some(m)
    requires NoMatchIn(at, t, i, m.start) && NoMatchIn(at, t, m.End(), |t|)
    ensures ScanWith(at, t, i) == [m]
  {
    ScanNext(at, t, i, m);
    ScanEmptyIff(at, t, m.End());
  }
  /** Two matches separated by one character that starts none, and nothing after the second. */
  lemma ScanPair(at: (string, nat) -> Option<Ref>, t: string, m: Ref, n: Ref)
    requires Sticky(at)
    requires m.start == 0 && at(t, 0) == Some(m)
    requires m.End() + 1 == n.start && at(t, m.End()) == None
    requires n.start < |t| && at(t, n.start) == Some(n) && n.End() == |t|
    ensures ScanWith(at, t, 0) == [m, n]
  {
    var rest := ScanWith(at, t, m.End());
    assert ScanWith(at, t, 0) == [m] + rest by {
      assert NoMatchIn(at, t, 0, 0);
      ScanNext(at, t, 0, m);
    }
    assert rest == [n] by {
      assert NoMatchIn(at, t, m.End(), n.start) by {
        forall j | m.End() <= j < n.start
          ensures at(t, j).None?
        {
          assert j == m.End();
        }
      }
      assert NoMatchIn(at, t, n.End(), |t|);
      ScanSingle(at, t, m.End(), n);
    }
    Pair(m, n);
  }

  lemma Pair<T>(x: T, y: T)
    ensures [x] + [y] == [x, y]
  {
  }

  /** The texts of the matches, what `txt.match(...)` returns. */
  function Texts(refs: seq<Ref>): (r: seq<string>)
    ensures |r| == |refs|
    ensures forall k :: 0 <= k < |refs| ==> r[k] == refs[k].Text()
  {
    seq(|refs|, k requires 0 <= k < |refs| => refs[k].Text())
  }
}
