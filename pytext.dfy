/**
 * The handful of Python `str` operations the two request handlers use:
 * `isspace`/`strip()`, `startswith`, slicing `s[k:]`, `lower()`, the `in`
 * test for one character and `split(sep)` followed by `[-1]`.
 */
module PyText {

  /** `c.isspace()`: the characters Python's argument-less `strip()` removes. */
  predicate IsSpace(c: char) {
    var n := c as int;
    || 9 <= n <= 13        // \t \n \v \f \r
    || 28 <= n <= 32       // the four separators \x1c..\x1f, and the space
    || n == 0x85 || n == 0xA0 || n == 0x1680
    || 0x2000 <= n <= 0x200A
    || n == 0x2028 || n == 0x2029 || n == 0x202F || n == 0x205F || n == 0x3000
  }

  /** Every character of `s` is whitespace (vacuously true of ""). */
  predicate AllSpace(s: string) {
    forall i :: 0 <= i < |s| ==> IsSpace(s[i])
  }

  /**
   * Where the text after the leading whitespace of `s[k..]` starts: the
   * first index from `k` on that is not whitespace, or `|s|`.
   */
  function SpaceRunEnd(s: string, k: nat): (n: nat)
    requires k <= |s|
    ensures k <= n <= |s|
    ensures forall i :: k <= i < n ==> IsSpace(s[i])
    ensures n < |s| ==> !IsSpace(s[n])
    decreases |s| - k
  {
    if k < |s| && IsSpace(s[k]) then SpaceRunEnd(s, k + 1) else k
  }

  /**
   * Where the trailing whitespace of `s[..k]` starts: the index after the
   * last character before `k` that is not whitespace, or 0.
   */
  function SpaceRunStart(s: string, k: nat): (n: nat)
    requires k <= |s|
    ensures n <= k
    ensures forall i :: n <= i < k ==> IsSpace(s[i])
    ensures n > 0 ==> !IsSpace(s[n - 1])
  {
    if k > 0 && IsSpace(s[k - 1]) then SpaceRunStart(s, k - 1) else k
  }

  /**
   * `s.strip()`: the stretch between the leading and the trailing
   * whitespace, or "" when `s` is whitespace only.
   */
  function Strip(s: string): (r: string)
  {
    var i := SpaceRunEnd(s, 0);
    var j := SpaceRunStart(s, |s|);
    if i < j then s[i..j] else ""
  }

  /**
   * What `strip()` keeps is the stretch `s[i..j]` of `s` between the leading
   * and the trailing whitespace: only whitespace lies around it, and it
   * neither starts nor ends with whitespace.
   */
  lemma StripIsInnerSlice(s: string) returns (i: nat, j: nat)
    ensures i <= j <= |s| && Strip(s) == s[i..j]
    ensures AllSpace(s[..i]) && AllSpace(s[j..])
    ensures i < j ==> !IsSpace(s[i]) && !IsSpace(s[j - 1])
  {
    i := SpaceRunEnd(s, 0);
    j := SpaceRunStart(s, |s|);
    if j <= i {
      j := i;
    }
  }

  /** A string that neither starts nor ends with whitespace is its own `strip()`. */
  lemma StripUnchanged(s: string)
    requires s == [] || (!IsSpace(s[0]) && !IsSpace(s[|s| - 1]))
    ensures Strip(s) == s
  {
    assert s[0..|s|] == s;
  }

  /** `strip()` gives "" exactly when the string is all whitespace. */
  lemma StripEmptyIff(s: string)
    ensures Strip(s) == [] <==> AllSpace(s)
  {
    var i, j := StripIsInnerSlice(s);
    if Strip(s) == [] {
      assert s == s[..i] + s[j..];
    } else {
      assert s[i] == Strip(s)[0];
    }
  }

  /** Stripping twice is stripping once. */
  lemma StripIdempotent(s: string)
    ensures Strip(Strip(s)) == Strip(s)
  {
    var i, j := StripIsInnerSlice(s);
    var r := Strip(s);
    if r != [] {
      assert r[0] == s[i] && r[|r| - 1] == s[j - 1];
    }
    StripUnchanged(r);
  }

  /** `s.startswith(p)`. */
  predicate StartsWith(s: string, p: string) {
    |p| <= |s| && s[..|p|] == p
  }

  /** Python's slice `s[k:]`, which is "" once `k` is past the end. */
  function Drop(s: string, k: nat): (r: string)
    ensures |r| == if k <= |s| then |s| - k else 0
    ensures k <= |s| ==> s == s[..k] + r
  {
    if k <= |s| then s[k..] else ""
  }

  /** Whether `s` ends with `tail`. */
  predicate EndsWith(s: string, tail: string) {
    |tail| <= |s| && s[|s| - |tail|..] == tail
  }

  /**
   * `c.lower()` for the ASCII letters. Case mapping outside ASCII is not part
   * of this model; every character that is not an ASCII capital is kept.
   */
  function LowerChar(c: char): (r: char)
    ensures 'A' <= c <= 'Z' ==> 'a' <= r <= 'z' && r as int - c as int == 32
    ensures !('A' <= c <= 'Z') ==> r == c
  {
    if 'A' <= c <= 'Z' then (c as int + 32) as char else c
  }

  /** `s.lower()`, character by character. */
  function Lower(s: string): (r: string)
    ensures |r| == |s|
    ensures forall i :: 0 <= i < |s| ==> r[i] == LowerChar(s[i])
  {
    if |s| == 0 then "" else Lower(s[..|s| - 1]) + [LowerChar(s[|s| - 1])]
  }

  /** A character that `lower()` neither produces from another nor changes. */
  predicate Caseless(c: char) {
    !('A' <= c <= 'Z') && !('a' <= c <= 'z')
  }

  /** Lowering neither adds nor removes a caseless separator. */
  lemma LowerKeepsCaseless(s: string, sep: char)
    requires Caseless(sep)
    ensures sep in Lower(s) <==> sep in s
  {
    if sep in s {
      var i :| 0 <= i < |s| && s[i] == sep;
      assert Lower(s)[i] == sep;
    }
    if sep in Lower(s) {
      var i :| 0 <= i < |s| && Lower(s)[i] == sep;
      assert s[i] == sep;
    }
  }

  /** Lowering twice is lowering once. */
  lemma LowerIdempotent(s: string)
    ensures Lower(Lower(s)) == Lower(s)
  {
  }

  /** Lowering distributes over concatenation. */
  lemma LowerConcat(a: string, b: string)
    ensures Lower(a + b) == Lower(a) + Lower(b)
  {
    assert Lower(a + b) == Lower(a) + Lower(b);
  }

  /**
   * `s.split(sep)`, defined by peeling the last character: a separator
   * closes the last segment and opens an empty one, any other character
   * extends the last segment. "" splits into [""], so there is always a
   * last segment for `[-1]` to take.
   */
  function Split(s: string, sep: char): (r: seq<string>)
    ensures |r| >= 1
  {
    if |s| == 0 then [""]
    else
      var t := Split(s[..|s| - 1], sep);
      var c := s[|s| - 1];
      if c == sep then t + [""]
      else t[..|t| - 1] + [t[|t| - 1] + [c]]
  }

  /** `sep.join(xs)`. */
  function Join(xs: seq<string>, sep: char): (r: string)
    requires |xs| >= 1
  {
    if |xs| == 1 then xs[0]
    else Join(xs[..|xs| - 1], sep) + [sep] + xs[|xs| - 1]
  }

  /** `xs[-1]`. */
  function Last(xs: seq<string>): string
    requires |xs| >= 1
  {
    xs[|xs| - 1]
  }

  /** No piece holds the separator. */
  predicate SepFree(xs: seq<string>, sep: char) {
    forall k :: 0 <= k < |xs| ==> sep !in xs[k]
  }

  /** Splitting cuts `s` at every separator and nowhere else: joining gives `s` back. */
  lemma {:induction false} JoinSplit(s: string, sep: char)
    ensures Join(Split(s, sep), sep) == s
    ensures SepFree(Split(s, sep), sep)
  {
    if |s| > 0 {
      var p := s[..|s| - 1];
      var c := s[|s| - 1];
      JoinSplit(p, sep);
      assert s == p + [c];
      if c == sep {
        SplitThenSep(p, sep);
      } else {
        SplitThenOther(p, c, sep);
      }
    }
  }

  /** One step of `JoinSplit`: the last character is the separator. */
  lemma SplitThenSep(p: string, sep: char)
    requires Join(Split(p, sep), sep) == p && SepFree(Split(p, sep), sep)
    ensures Join(Split(p + [sep], sep), sep) == p + [sep]
    ensures SepFree(Split(p + [sep], sep), sep)
  {
    var s := p + [sep];
    assert s[..|s| - 1] == p;
    var t := Split(p, sep);
    var r := Split(s, sep);
    assert r == t + [""];
    assert r[..|r| - 1] == t;
  }

  /** One step of `JoinSplit`: the last character is not the separator. */
  lemma SplitThenOther(p: string, c: char, sep: char)
    requires c != sep
    requires Join(Split(p, sep), sep) == p && SepFree(Split(p, sep), sep)
    ensures Join(Split(p + [c], sep), sep) == p + [c]
    ensures SepFree(Split(p + [c], sep), sep)
  {
    var s := p + [c];
    assert s[..|s| - 1] == p;
    var t := Split(p, sep);
    var n := |t|;
    var r := Split(s, sep);
    assert r == t[..n - 1] + [t[n - 1] + [c]];
    assert |r| == n;
    assert r[..n - 1] == t[..n - 1];
    if n > 1 {
      assert Join(t, sep) == Join(t[..n - 1], sep) + [sep] + t[n - 1];
      assert Join(r, sep) == Join(r[..n - 1], sep) + [sep] + r[n - 1];
    }
    assert sep !in t[n - 1];
    assert sep !in r[n - 1];
    forall k | 0 <= k < n - 1 ensures sep !in r[k] {
      assert r[k] == t[k];
    }
  }

  /** Splitting a join of separator-free pieces gives the pieces back. */
  lemma {:induction false} SplitJoin(xs: seq<string>, sep: char)
    requires |xs| >= 1 && SepFree(xs, sep)
    ensures Split(Join(xs, sep), sep) == xs
  {
    if |xs| == 1 {
      SplitSepFree(xs[0], sep);
    } else {
      var init := xs[..|xs| - 1];
      assert SepFree(init, sep);
      SplitJoin(init, sep);
      SplitAppend(Join(init, sep), xs[|xs| - 1], sep);
      assert xs == init + [xs[|xs| - 1]];
    }
  }

  /** A string without the separator is one segment. */
  lemma {:induction false} SplitSepFree(s: string, sep: char)
    requires sep !in s
    ensures Split(s, sep) == [s]
  {
    if |s| > 0 {
      SplitSepFree(s[..|s| - 1], sep);
      assert s == s[..|s| - 1] + [s[|s| - 1]];
    }
  }

  /** Appending a separator and a separator-free tail adds that tail as one more segment. */
  lemma {:induction false} SplitAppend(s: string, tail: string, sep: char)
    requires sep !in tail
    ensures Split(s + [sep] + tail, sep) == Split(s, sep) + [tail]
  {
    if |tail| == 0 {
      assert s + [sep] + tail == s + [sep];
      assert (s + [sep])[..|s|] == s;
    } else {
      var u := s + [sep] + tail;
      var tail' := tail[..|tail| - 1];
      assert u[..|u| - 1] == s + [sep] + tail';
      SplitAppend(s, tail', sep);
      assert tail' + [tail[|tail| - 1]] == tail;
    }
  }

  /**
   * `s.split(sep)[-1]` is the text after the last separator, or all of `s`
   * when there is none: it is a tail of `s`, it holds no separator, and
   * either it is all of `s` or a separator stands right before it.
   */
  lemma {:induction false} LastSegment(s: string, sep: char)
    ensures var l := Last(Split(s, sep));
            && EndsWith(s, l)
            && sep !in l
            && (|l| < |s| ==> s[|s| - |l| - 1] == sep)
            && (|l| == |s| <==> sep !in s)
  {
    if |s| > 0 {
      var p := s[..|s| - 1];
      var c := s[|s| - 1];
      LastSegment(p, sep);
      assert s == p + [c];
      if c != sep {
        LastSegmentExtend(p, c, sep);
      } else {
        assert Last(Split(s, sep)) == [];
      }
    }
  }

  /** One step of `LastSegment`: a last character other than the separator extends the last piece. */
  lemma LastSegmentExtend(p: string, c: char, sep: char)
    requires c != sep
    requires var l := Last(Split(p, sep));
             && EndsWith(p, l) && sep !in l
             && (|l| < |p| ==> p[|p| - |l| - 1] == sep)
             && (|l| == |p| <==> sep !in p)
    ensures var s := p + [c];
            var l := Last(Split(s, sep));
            && EndsWith(s, l)
            && sep !in l
            && (|l| < |s| ==> s[|s| - |l| - 1] == sep)
            && (|l| == |s| <==> sep !in s)
  {
    var s := p + [c];
    assert s[..|s| - 1] == p;
    var l' := Last(Split(p, sep));
    var l := Last(Split(s, sep));
    assert l == l' + [c];
    assert s[|s| - |l|..] == p[|p| - |l'|..] + [c];
    assert sep in s <==> sep in p by {
      if sep in s {
        var i :| 0 <= i < |s| && s[i] == sep;
        assert i < |p| && p[i] == sep;
      }
    }
  }

  /** At most one string is a separator-free tail of `s` preceded by a separator or filling `s`. */
  lemma TailAfterSepUnique(s: string, sep: char, a: string, b: string)
    requires EndsWith(s, a) && sep !in a && (|a| < |s| ==> s[|s| - |a| - 1] == sep)
    requires EndsWith(s, b) && sep !in b && (|b| < |s| ==> s[|s| - |b| - 1] == sep)
    ensures a == b
  {
  }

  /**
   * With a set of separator-free words: `s` holds the separator and its
   * last piece is one of the words exactly when `s` ends with the separator
   * followed by one of them.
   */
  lemma LastSegmentIn(s: string, sep: char, words: set<string>)
    requires forall w :: w in words ==> sep !in w
    ensures sep in s && Last(Split(s, sep)) in words
            <==> exists w :: w in words && EndsWith(s, [sep] + w)
  {
    LastSegment(s, sep);
    var l := Last(Split(s, sep));
    if sep in s && l in words {
      assert s[|s| - |l| - 1..] == [sep] + l;
    }
    if w :| w in words && EndsWith(s, [sep] + w) {
      assert s[|s| - |w| - 1] == sep;
      assert s[|s| - |w|..] == w;
      TailAfterSepUnique(s, sep, l, w);
    }
  }

  /** With a caseless separator, lowering then splitting is splitting then lowering each piece. */
  lemma {:induction false} SplitLower(s: string, sep: char)
    requires Caseless(sep)
    ensures |Split(Lower(s), sep)| == |Split(s, sep)|
    ensures forall k :: 0 <= k < |Split(s, sep)| ==> Split(Lower(s), sep)[k] == Lower(Split(s, sep)[k])
  {
    if |s| > 0 {
      SplitLower(s[..|s| - 1], sep);
      SplitLowerStep(s, sep);
    }
  }

  /** One step of `SplitLower`: the last character keeps the pieces in correspondence. */
  lemma SplitLowerStep(s: string, sep: char)
    requires Caseless(sep) && |s| > 0
    requires var p := s[..|s| - 1];
             && |Split(Lower(p), sep)| == |Split(p, sep)|
             && forall k :: 0 <= k < |Split(p, sep)| ==> Split(Lower(p), sep)[k] == Lower(Split(p, sep)[k])
    ensures |Split(Lower(s), sep)| == |Split(s, sep)|
    ensures forall k :: 0 <= k < |Split(s, sep)| ==> Split(Lower(s), sep)[k] == Lower(Split(s, sep)[k])
  {
    var p := s[..|s| - 1];
    var c := s[|s| - 1];
    var ls := Lower(s);
    assert ls[..|ls| - 1] == Lower(p);
    if c == sep {
      SplitLowerAtSep(Split(p, sep), Split(Lower(p), sep), Split(s, sep), Split(ls, sep));
    } else {
      SplitLowerInside(c, Split(p, sep), Split(Lower(p), sep), Split(s, sep), Split(ls, sep));
    }
  }

  /** A separator adds an empty piece on both sides. */
  lemma SplitLowerAtSep(t: seq<string>, lt: seq<string>, st: seq<string>, lst: seq<string>)
    requires |lt| == |t| && forall k :: 0 <= k < |t| ==> lt[k] == Lower(t[k])
    requires st == t + [""] && lst == lt + [""]
    ensures |lst| == |st| && forall k :: 0 <= k < |st| ==> lst[k] == Lower(st[k])
  {
    forall k | 0 <= k < |st|
      ensures lst[k] == Lower(st[k])
    {
      if k < |t| {
        assert st[k] == t[k] && lst[k] == lt[k];
      }
    }
  }

  /** Any other character extends the last piece on both sides, lowered on the lowered side. */
  lemma SplitLowerInside(c: char, t: seq<string>, lt: seq<string>, st: seq<string>, lst: seq<string>)
    requires |t| >= 1 && |lt| == |t| && forall k :: 0 <= k < |t| ==> lt[k] == Lower(t[k])
    requires st == t[..|t| - 1] + [t[|t| - 1] + [c]]
    requires lst == lt[..|t| - 1] + [lt[|t| - 1] + [LowerChar(c)]]
    ensures |lst| == |st| && forall k :: 0 <= k < |st| ==> lst[k] == Lower(st[k])
  {
    var n := |t|;
    LowerConcat(t[n - 1], [c]);
    forall k | 0 <= k < |st|
      ensures lst[k] == Lower(st[k])
    {
      if k < n - 1 {
        assert st[k] == t[k] && lst[k] == lt[k];
      } else {
        assert Lower([c]) == [LowerChar(c)];
      }
    }
  }

  /** So the last piece of the lowered string is the lowered last piece. */
  lemma LastSegmentLower(s: string, sep: char)
    requires Caseless(sep)
    ensures Last(Split(Lower(s), sep)) == Lower(Last(Split(s, sep)))
  {
    SplitLower(s, sep);
  }
}
