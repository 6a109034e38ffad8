/**
 The JavaScript string operations the app relies on: white space as ECMAScript defines
 it (`\s`, `trim`), `split` on one character, `replace(/x/g, y)` on one character, and
 `replace` with a string pattern, which changes the first occurrence only.
 */
module Text {

  import opened Optional

  /** ECMAScript WhiteSpace and LineTerminator code points: what `\s` matches and what
      `trim` and `parseInt` skip. */
  predicate IsJsSpace(c: char) {
    c == '\t' || c == '\n' || c == '\U{B}' || c == '\U{C}' || c == '\r' || c == ' '
    || c == '\U{A0}' || c == '\U{1680}' || '\U{2000}' <= c <= '\U{200A}'
    || c == '\U{2028}' || c == '\U{2029}' || c == '\U{202F}' || c == '\U{205F}'
    || c == '\U{3000}' || c == '\U{FEFF}'
  }

  /** The longest prefix of `s` whose characters all satisfy `p`. */
  function LeadingRun(s: string, p: char -> bool): (r: string)
    ensures r <= s
    ensures forall i :: 0 <= i < |r| ==> p(r[i])
    ensures |r| < |s| ==> !p(s[|r|])
  {
    if s == [] || !p(s[0]) then [] else [s[0]] + LeadingRun(s[1..], p)
  }

  lemma {:induction false} LeadingRunOfAll(s: string, rest: string, p: char -> bool)
    requires forall i :: 0 <= i < |s| ==> p(s[i])
    requires rest == [] || !p(rest[0])
    ensures LeadingRun(s + rest, p) == s
  {
    if s != [] {
      assert (s + rest)[1..] == s[1..] + rest;
      LeadingRunOfAll(s[1..], rest, p);
    } else {
      assert s + rest == rest;
    }
  }

  /** `s.trimStart()`: drop the leading white space. */
  function TrimStart(s: string): (r: string)
    ensures |r| <= |s| && r == s[|s| - |r|..]
    ensures forall i :: 0 <= i < |s| - |r| ==> IsJsSpace(s[i])
    ensures r != [] ==> !IsJsSpace(r[0])
  {
    if s != [] && IsJsSpace(s[0]) then TrimStart(s[1..]) else s
  }

  /** `s.trimEnd()`: drop the trailing white space. */
  function TrimEnd(s: string): (r: string)
    ensures r <= s
    ensures forall i :: |r| <= i < |s| ==> IsJsSpace(s[i])
    ensures r != [] ==> !IsJsSpace(r[|r| - 1])
  {
    if s != [] && IsJsSpace(s[|s| - 1]) then TrimEnd(s[..|s| - 1]) else s
  }

  /** `r` is what is left of `s` at index `i` once white space alone is dropped before and
      after it. */
  predicate TrimmedAt(s: string, r: string, i: nat) {
    && i + |r| <= |s| && s[i..i + |r|] == r
    && (forall k :: 0 <= k < i ==> IsJsSpace(s[k]))
    && (forall k :: i + |r| <= k < |s| ==> IsJsSpace(s[k]))
  }

  /** Trimming the end of what `trimStart` leaves drops only white space on either side. */
  lemma TrimStartThenEnd(s: string)
    ensures exists i :: TrimmedAt(s, TrimEnd(TrimStart(s)), i)
  {
    var t := TrimStart(s);
    var r := TrimEnd(t);
    var d := |s| - |t|;
    assert t == s[d..];
    forall k | d + |r| <= k < |s| ensures IsJsSpace(s[k]) {
      assert s[k] == t[k - d];
    }
    assert s[d..d + |r|] == t[..|r|] == r;
    assert TrimmedAt(s, r, d);
  }

  /** Nothing is left exactly when every character is white space. */
  lemma TrimAllSpace(s: string)
    ensures TrimEnd(TrimStart(s)) == [] <==> forall i :: 0 <= i < |s| ==> IsJsSpace(s[i])
  {
    var t := TrimStart(s);
    var r := TrimEnd(t);
    var d := |s| - |t|;
    assert t == s[d..];
    if r == [] {
      forall i | 0 <= i < |s| ensures IsJsSpace(s[i]) {
        if i >= d {
          assert s[i] == t[i - d];
        }
      }
    } else {
      assert s[d + |r| - 1] == t[|r| - 1];
    }
  }

  /** What both trims leave, with the three facts `trim` promises about it. */
  lemma TrimFacts(s: string)
    ensures var r := TrimEnd(TrimStart(s));
            && (exists i :: TrimmedAt(s, r, i))
            && (r != [] ==> !IsJsSpace(r[0]) && !IsJsSpace(r[|r| - 1]))
            && (r == [] <==> forall i :: 0 <= i < |s| ==> IsJsSpace(s[i]))
  {
    TrimStartThenEnd(s);
    TrimAllSpace(s);
  }

  /** `s.trim()`: the slice of `s` left after dropping white space at both ends. */
  function Trim(s: string): (r: string)
    ensures exists i :: TrimmedAt(s, r, i)
    ensures r != [] ==> !IsJsSpace(r[0]) && !IsJsSpace(r[|r| - 1])
    ensures r == [] <==> forall i :: 0 <= i < |s| ==> IsJsSpace(s[i])
  {
    TrimFacts(s);
    TrimEnd(TrimStart(s))
  }

  /** Trimming twice is trimming once. */
  lemma TrimIdempotent(s: string)
    ensures Trim(Trim(s)) == Trim(s)
  {
    var r := Trim(s);
    assert TrimStart(r) == r;
    assert TrimEnd(r) == r;
  }

  /** `s.split(sep)` for a one-character separator: the pieces between separators, in
      order; always at least one piece. */
  function Split(s: string, sep: char): (parts: seq<string>)
    ensures |parts| >= 1
    ensures forall k :: 0 <= k < |parts| ==> sep !in parts[k]
    ensures forall k, c :: 0 <= k < |parts| && c in parts[k] ==> c in s
  {
    if s == [] then [""]
    else
      var rest := Split(s[1..], sep);
      assert forall c :: c in s[1..] ==> c in s;
      if s[0] == sep then [""] + rest
      else
        var first := [s[0]] + rest[0];
        assert forall c :: c in first ==> c in s;
        [first] + rest[1..]
  }

  /** Split reads a piece up to the first separator, then the rest. */
  lemma {:induction false} SplitAt(a: string, sep: char, b: string)
    requires sep !in a
    ensures Split(a + [sep] + b, sep) == [a] + Split(b, sep)
  {
    if a == [] {
      assert a + [sep] + b == [sep] + b;
      assert ([sep] + b)[1..] == b;
    } else {
      var s := a + [sep] + b;
      assert s[1..] == a[1..] + [sep] + b;
      SplitAt(a[1..], sep, b);
      assert [a[0]] + a[1..] == a;
    }
  }

  /** Text without the separator is a single piece. */
  lemma {:induction false} SplitWhole(a: string, sep: char)
    requires sep !in a
    ensures Split(a, sep) == [a]
  {
    if a != [] {
      SplitWhole(a[1..], sep);
      assert [a[0]] + a[1..] == a;
    }
  }

  /** Four pieces joined by the separator split back into those pieces. */
  lemma SplitJoin4(p0: string, p1: string, p2: string, p3: string, sep: char)
    requires sep !in p0 && sep !in p1 && sep !in p2 && sep !in p3
    ensures Split(p0 + [sep] + p1 + [sep] + p2 + [sep] + p3, sep) == [p0, p1, p2, p3]
  {
    var t2 := p2 + [sep] + p3;
    var t1 := p1 + [sep] + t2;
    assert p0 + [sep] + p1 + [sep] + p2 + [sep] + p3 == p0 + [sep] + t1;
    SplitAt(p0, sep, t1);
    SplitAt(p1, sep, t2);
    SplitAt(p2, sep, p3);
    SplitWhole(p3, sep);
  }

  /** `s.replace(/x/g, y)` for one character `x`: every `x` becomes `y`, nothing else moves. */
  function ReplaceAllChar(s: string, x: char, y: char): (r: string)
    ensures |r| == |s|
    ensures forall i :: 0 <= i < |s| ==> r[i] == (if s[i] == x then y else s[i])
  {
    if s == [] then [] else [if s[0] == x then y else s[0]] + ReplaceAllChar(s[1..], x, y)
  }

  /** `pat` occurs in `s` at index `i`. */
  predicate OccursAt(s: string, pat: string, i: nat) {
    i + |pat| <= |s| && s[i..i + |pat|] == pat
  }

  /** `s.indexOf(pat, from)`: the first index at or after `from` where `pat` occurs. */
  function IndexOfFrom(s: string, pat: string, from: nat): (r: Option<nat>)
    requires from <= |s|
    ensures r.Some? ==> from <= r.value && OccursAt(s, pat, r.value)
    ensures r.Some? ==> forall j :: from <= j < r.value ==> !OccursAt(s, pat, j)
    ensures r.None? ==> forall j :: from <= j <= |s| ==> !OccursAt(s, pat, j)
    decreases |s| - from
  {
    if OccursAt(s, pat, from) then Some(from)
    else if from == |s| then None
    else IndexOfFrom(s, pat, from + 1)
  }

  /** `s.indexOf(pat)`: the first index where `pat` occurs, if any. */
  function IndexOf(s: string, pat: string): (r: Option<nat>)
    ensures r.Some? ==> OccursAt(s, pat, r.value)
    ensures r.Some? ==> forall j :: 0 <= j < r.value ==> !OccursAt(s, pat, j)
    ensures r.None? ==> forall j :: 0 <= j <= |s| ==> !OccursAt(s, pat, j)
  {
    IndexOfFrom(s, pat, 0)
  }

  /** `s.replace(pat, rep)` with a string pattern: the first occurrence of `pat` is replaced
      by `rep`; without an occurrence `s` is returned as it is. The `$` patterns JavaScript
      would expand inside `rep` are not interpreted. */
  function ReplaceFirst(s: string, pat: string, rep: string): (r: string)
    ensures (forall j :: 0 <= j <= |s| ==> !OccursAt(s, pat, j)) ==> r == s
    ensures forall i: nat ::
              (OccursAt(s, pat, i) && forall j: nat :: j < i ==> !OccursAt(s, pat, j))
              ==> r == s[..i] + rep + s[i + |pat|..]
  {
    match IndexOf(s, pat)
    case None => s
    case Some(i) => s[..i] + rep + s[i + |pat|..]
  }
}
