/** The JavaScript string operations the build code relies on, over `seq<char>`. */
module Text {
  import opened Outcomes

  /** `p` occurs in `s` starting at index `k`. */
  predicate OccursAt(s: string, p: string, k: int)
  {
    0 <= k && k + |p| <= |s| && s[k..k + |p|] == p
  }

  predicate StartsWith(s: string, p: string)
  {
    OccursAt(s, p, 0)
  }

  predicate EndsWith(s: string, p: string)
  {
    OccursAt(s, p, |s| - |p|)
  }

  predicate Contains(s: string, p: string)
  {
    exists k | 0 <= k <= |s| - |p| :: OccursAt(s, p, k)
  }

  /** `s.indexOf(p, from)`, with `None` for -1. */
  function IndexOfFrom(s: string, p: string, from: nat): (r: Option<nat>)
    decreases |s| - from
    ensures r.Some? ==> from <= r.value && OccursAt(s, p, r.value)
    ensures r.Some? ==> forall k :: from <= k < r.value ==> !OccursAt(s, p, k)
    ensures r.None? ==> forall k :: from <= k ==> !OccursAt(s, p, k)
  {
    if |s| < from + |p| then None
    else if s[from..from + |p|] == p then Some(from)
    else IndexOfFrom(s, p, from + 1)
  }

  function IndexOf(s: string, p: string): Option<nat>
  {
    IndexOfFrom(s, p, 0)
  }

  /** `p` occurs nowhere in `s`. */
  ghost predicate Absent(s: string, p: string)
  {
    forall k :: !OccursAt(s, p, k)
  }

  /** `k` is the first occurrence of `p` in `s`. */
  ghost predicate FirstAt(s: string, p: string, k: int)
  {
    OccursAt(s, p, k) && forall j :: 0 <= j < k ==> !OccursAt(s, p, j)
  }

  /** `s.replace(p, rep)` with a string pattern: only the first occurrence of `p` is replaced,
      and a string without `p` comes back unchanged. */
  function ReplaceFirst(s: string, p: string, rep: string): (r: string)
    ensures Absent(s, p) ==> r == s
    ensures forall k :: FirstAt(s, p, k) ==> 0 <= k <= k + |p| <= |s| && r == s[..k] + rep + s[k + |p|..]
  {
    match IndexOf(s, p)
    case None => s
    case Some(k) => s[..k] + rep + s[k + |p|..]
  }

  /** `ReplaceFirst` at a known first occurrence. */
  lemma ReplaceFirstAt(s: string, p: string, rep: string, k: int)
    requires FirstAt(s, p, k)
    ensures 0 <= k <= k + |p| <= |s| && ReplaceFirst(s, p, rep) == s[..k] + rep + s[k + |p|..]
  {
  }

  /** Regrouping a concatenation, stated once so that proofs with much else in scope need not
      rediscover it. */
  lemma Assoc(a: string, b: string, c: string)
    ensures a + (b + c) == a + b + c
  {
  }

  /** Regrouping a concatenation of four. */
  lemma Regroup(a: string, b: string, c: string, d: string)
    ensures a + (b + c) + d == a + b + c + d
  {
  }

  /** Replacing an occurrence of `front + back` by `front + mid + back` inserts `mid` after `front`. */
  lemma InsertWithin(s: string, k: nat, front: string, mid: string, back: string)
    requires OccursAt(s, front + back, k)
    ensures s[..k] + (front + mid + back) + s[k + |front + back|..] == s[..k + |front|] + mid + s[k + |front|..]
  {
    var e := k + |front|;
    var c := k + |front + back|;
    assert s[k..c] == front + back;
    assert s[..e] == s[..k] + front by {
      assert s[k..e] == (front + back)[..|front|];
    }
    assert s[e..] == back + s[c..] by {
      assert s[e..c] == (front + back)[|front|..];
    }
  }

  /** Replacing the first occurrence of `front + back` by `front + mid + back` inserts `mid`
      after that occurrence's `front`. */
  lemma ReplaceWithin(s: string, k: nat, front: string, mid: string, back: string, e: nat)
    requires FirstAt(s, front + back, k) && e == k + |front|
    ensures e <= |s|
    ensures ReplaceFirst(s, front + back, front + mid + back) == s[..e] + mid + s[e..]
  {
    ReplaceFirstAt(s, front + back, front + mid + back, k);
    InsertWithin(s, k, front, mid, back);
  }

  /** A text that starts with `p` has its first occurrence of `p` replaced at the start. */
  lemma ReplaceAtStart(p: string, rest: string, rep: string)
    ensures ReplaceFirst(p + rest, p, rep) == rep + rest
  {
    assert (p + rest)[..|p|] == p;
    ReplaceFirstAt(p + rest, p, rep, 0);
    assert (p + rest)[|p|..] == rest;
  }

  /** Replacing the first occurrence of `anchor` by `block + anchor` inserts `block` in front of it. */
  lemma InsertBeforeFirst(s: string, anchor: string, block: string, k: nat)
    requires FirstAt(s, anchor, k)
    ensures ReplaceFirst(s, anchor, block + anchor) == s[..k] + block + s[k..]
  {
    var tail := s[k + |anchor|..];
    assert s[k..] == anchor + tail by {
      assert s[k..k + |anchor|] == anchor;
    }
    calc {
      ReplaceFirst(s, anchor, block + anchor);
      s[..k] + (block + anchor) + tail;
      s[..k] + block + (anchor + tail);
      s[..k] + block + s[k..];
    }
  }

  /** Two pieces that stand next to each other in `s` make up their concatenation. */
  lemma OccursConcat(s: string, p: string, q: string, k: int)
    requires OccursAt(s, p, k) && OccursAt(s, q, k + |p|)
    ensures OccursAt(s, p + q, k)
  {
    assert s[k..k + |p + q|] == s[k..k + |p|] + s[k + |p|..k + |p| + |q|];
  }

  /** An occurrence of `p + q` is an occurrence of `p` followed by one of `q`. */
  lemma OccursSplit(s: string, p: string, q: string, k: int)
    requires OccursAt(s, p + q, k)
    ensures OccursAt(s, p, k) && OccursAt(s, q, k + |p|)
  {
    assert s[k..k + |p|] == s[k..k + |p + q|][..|p|];
    assert s[k + |p|..k + |p| + |q|] == s[k..k + |p + q|][|p|..];
  }

  /** Two equal windows of `s`: an occurrence inside the one at `b` is mirrored in the one
      at `a`. */
  lemma OccursShift(s: string, a: nat, b: nat, n: nat, p: string, k: nat)
    requires a + n <= |s| && b + n <= |s| && s[a..a + n] == s[b..b + n]
    requires b <= k && k + |p| <= b + n && OccursAt(s, p, k)
    ensures OccursAt(s, p, a + (k - b))
  {
    var c := a + (k - b);
    forall j | 0 <= j < |p|
      ensures s[c + j] == p[j]
    {
      assert s[c + j] == s[a..a + n][k - b + j];
      assert s[k + j] == s[b..b + n][k - b + j];
      assert s[k + j] == s[k..k + |p|][j];
    }
    assert s[c..c + |p|] == p;
  }

  /** An occurrence inside the middle piece is an occurrence in the whole. */
  lemma OccursInMiddle(a: string, b: string, c: string, p: string, o: nat)
    requires OccursAt(b, p, o)
    ensures OccursAt(a + b + c, p, |a| + o)
  {
    assert (a + b + c)[|a| + o..|a| + o + |p|] == b[o..o + |p|];
  }

  /** An occurrence inside a prefix is an occurrence in the whole. */
  lemma OccursInPrefix(s: string, x: string, p: string, o: nat)
    requires StartsWith(s, x) && OccursAt(x, p, o)
    ensures OccursAt(s, p, o)
  {
    assert s[o..o + |p|] == s[..|x|][o..o + |p|];
  }

  /** `xs.join(sep)`. */
  function Join(xs: seq<string>, sep: string): string
    decreases |xs|
  {
    if xs == [] then "" else if |xs| == 1 then xs[0] else xs[0] + sep + Join(xs[1..], sep)
  }

  /** A non-empty join begins with its first element. */
  lemma JoinStartsWithFirst(xs: seq<string>, sep: string)
    requires xs != []
    ensures StartsWith(Join(xs, sep), xs[0])
  {
  }

  /** `s.split(c)[0]`: everything before the first `c`. */
  function BeforeFirst(s: string, c: char): (r: string)
    decreases |s|
    ensures |r| <= |s| && r == s[..|r|]
    ensures c !in r
    ensures |r| == |s| || s[|r|] == c
  {
    if s == [] || s[0] == c then "" else [s[0]] + BeforeFirst(s[1..], c)
  }

  /** Whatever follows a prefix that holds `c` cannot change what precedes the first `c`. */
  lemma {:induction false} BeforeFirstAppend(s: string, t: string, c: char)
    requires c in s || (t != [] && t[0] == c)
    ensures BeforeFirst(s + t, c) == BeforeFirst(s, c)
  {
    if s != [] && s[0] != c {
      assert (s + t)[1..] == s[1..] + t;
      BeforeFirstAppend(s[1..], t, c);
    }
  }

  /** `s.split(c)[1]` for a string that holds `c`: the text between the first and the second `c`. */
  function SecondField(s: string, c: char): string
    requires c in s
  {
    var head := BeforeFirst(s, c);
    BeforeFirst(s[|head| + 1..], c)
  }

  /** `s.replace(/a/g, b)` for a single character `a`. */
  function ReplaceAllChar(s: string, a: char, b: char): (r: string)
    decreases |s|
    ensures |r| == |s|
    ensures forall k :: 0 <= k < |s| ==> r[k] == (if s[k] == a then b else s[k])
  {
    if s == [] then [] else [if s[0] == a then b else s[0]] + ReplaceAllChar(s[1..], a, b)
  }

  predicate IsDigit(c: char)
  {
    '0' <= c <= '9'
  }

  /** `/^\d+$/.test(s)`. */
  predicate IsDigits(s: string)
  {
    |s| > 0 && forall k :: 0 <= k < |s| ==> IsDigit(s[k])
  }

  /** `[A-Za-z0-9_]`, the characters `\b` separates from the rest. */
  predicate IsWordChar(c: char)
  {
    'a' <= c <= 'z' || 'A' <= c <= 'Z' || IsDigit(c) || c == '_'
  }

  /** `w` occurs at `k` with a word boundary on both sides. */
  predicate WordAt(s: string, w: string, k: int)
  {
    OccursAt(s, w, k) && (k == 0 || !IsWordChar(s[k - 1])) && (k + |w| == |s| || !IsWordChar(s[k + |w|]))
  }

  /** `/\bw\b/.test(s)` for a word `w` made of word characters. */
  predicate ContainsWord(s: string, w: string)
  {
    exists k | 0 <= k <= |s| - |w| :: WordAt(s, w, k)
  }
}
