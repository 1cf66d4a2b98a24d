/**
 * The handful of JavaScript string operations the spreadsheet plugins rely on:
 * `String.prototype.trim`, ASCII `toUpperCase`/`toLowerCase`, `includes`,
 * `indexOf` and `replace` with a string pattern (which replaces the first
 * occurrence only).
 */
module JsString {
  import opened Wrappers

  /** The ASCII members of ECMAScript's WhiteSpace and LineTerminator sets
      (sections 12.2 and 12.3 of ECMA-262): space, tab, line feed, vertical
      tab, form feed and carriage return. */
  predicate IsSpace(c: char) {
    c == ' ' || '\t' <= c <= '\r'
  }

  predicate AllSpace(s: string) {
    forall k :: 0 <= k < |s| ==> IsSpace(s[k])
  }

  /** Neither the first nor the last character is white space. */
  predicate NoEdgeSpace(s: string) {
    s == [] || (!IsSpace(s[0]) && !IsSpace(s[|s| - 1]))
  }

  /** `s.trimStart()`: drop white space at the front. */
  function TrimStart(s: string): string
  {
    if s != [] && IsSpace(s[0]) then TrimStart(s[1..]) else s
  }

  /** `s.trimEnd()`: drop white space at the back. */
  function TrimEnd(s: string): string
  {
    if s != [] && IsSpace(s[|s| - 1]) then TrimEnd(s[..|s| - 1]) else s
  }

  /** `s.trim()`: strip white space at both ends. */
  function Trim(s: string): string
  {
    TrimEnd(TrimStart(s))
  }

  /** Dropping leading white space stops at the first other character. */
  lemma {:induction false} TrimStartSkips(p: string, w: string)
    requires AllSpace(p) && (w == [] || !IsSpace(w[0]))
    ensures TrimStart(p + w) == w
  {
    if p == [] {
      assert p + w == w;
    } else {
      assert (p + w)[0] == p[0];
      assert (p + w)[1..] == p[1..] + w;
      TrimStartSkips(p[1..], w);
    }
  }

  /** Dropping trailing white space stops at the last other character. */
  lemma {:induction false} TrimEndSkips(w: string, q: string)
    requires AllSpace(q) && (w == [] || !IsSpace(w[|w| - 1]))
    ensures TrimEnd(w + q) == w
  {
    if q == [] {
      assert w + q == w;
    } else {
      assert (w + q)[|w + q| - 1] == q[|q| - 1];
      assert (w + q)[..|w + q| - 1] == w + q[..|q| - 1];
      TrimEndSkips(w, q[..|q| - 1]);
    }
  }

  /** What `trimStart` drops is white space, and what it keeps does not start with any. */
  lemma {:induction false} TrimStartParts(s: string) returns (p: string)
    ensures s == p + TrimStart(s) && AllSpace(p)
    ensures TrimStart(s) == [] || !IsSpace(TrimStart(s)[0])
  {
    if s != [] && IsSpace(s[0]) {
      var p' := TrimStartParts(s[1..]);
      p := [s[0]] + p';
      assert s == [s[0]] + s[1..];
    } else {
      p := [];
    }
  }

  /** What `trimEnd` drops is white space, and what it keeps does not end with any. */
  lemma {:induction false} TrimEndParts(s: string) returns (q: string)
    ensures s == TrimEnd(s) + q && AllSpace(q)
    ensures TrimEnd(s) == [] || !IsSpace(TrimEnd(s)[|TrimEnd(s)| - 1])
  {
    if s != [] && IsSpace(s[|s| - 1]) {
      var q' := TrimEndParts(s[..|s| - 1]);
      q := q' + [s[|s| - 1]];
      assert s == s[..|s| - 1] + [s[|s| - 1]];
    } else {
      q := [];
    }
  }

  /** Every string is its trimmed text wrapped in the white space trimming
      removed, and the trimmed text has no white space at either edge. */
  lemma TrimParts(s: string) returns (p: string, q: string)
    ensures s == p + Trim(s) + q && AllSpace(p) && AllSpace(q)
    ensures NoEdgeSpace(Trim(s))
  {
    p := TrimStartParts(s);
    var u := TrimStart(s);
    q := TrimEndParts(u);
    var t := TrimEnd(u);
    assert u == t + q;
    if t != [] {
      assert t[0] == u[0];
    }
    assert s == p + t + q;
  }

  /** The trimmed text has clean edges, is no longer than the text, and is
      empty exactly when the text is all white space. */
  lemma TrimShape(s: string)
    ensures NoEdgeSpace(Trim(s))
    ensures Trim(s) == [] <==> AllSpace(s)
    ensures |Trim(s)| <= |s|
  {
    var p, q := TrimParts(s);
    assert Trim(s) != [] ==> s[|p|] == Trim(s)[0];
  }

  /** Trim is determined by its three parts: whatever is wrapped in white space
      and has no white space at its own edges is what trimming returns. */
  lemma TrimUnique(p: string, t: string, q: string)
    requires AllSpace(p) && AllSpace(q) && NoEdgeSpace(t)
    ensures Trim(p + t + q) == t
  {
    if t == [] {
      assert p + t + q == (p + q) + [];
      assert AllSpace(p + q);
      TrimStartSkips(p + q, []);
      assert TrimEnd([]) == [];
    } else {
      assert p + t + q == p + (t + q);
      assert (t + q)[0] == t[0];
      TrimStartSkips(p, t + q);
      TrimEndSkips(t, q);
    }
  }

  lemma TrimIdempotent(s: string)
    ensures Trim(Trim(s)) == Trim(s)
  {
    var _, _ := TrimParts(s);
    TrimUnique([], Trim(s), []);
    assert [] + Trim(s) + [] == Trim(s);
  }

  /** Trimming a string whose edges are already clean changes nothing. */
  lemma TrimClean(s: string)
    requires NoEdgeSpace(s)
    ensures Trim(s) == s
  {
    TrimUnique([], s, []);
    assert [] + s + [] == s;
  }

  /** Joining two clean strings with one space and trimming the result keeps
      the space only when both sides are non-empty. */
  lemma TrimJoin(f: string, l: string)
    requires NoEdgeSpace(f) && NoEdgeSpace(l)
    ensures Trim(f + " " + l) == if f == [] then l else if l == [] then f else f + " " + l
  {
    var joined := f + " " + l;
    assert AllSpace(" ") && AllSpace([]);
    if f == [] {
      assert joined == " " + l + [];
      TrimUnique(" ", l, []);
    } else if l == [] {
      assert joined == [] + f + " ";
      TrimUnique([], f, " ");
    } else {
      assert joined[0] == f[0] && joined[|joined| - 1] == l[|l| - 1];
      assert joined == [] + joined + [];
      TrimUnique([], joined, []);
    }
  }

  /** A trailing space does not survive trimming. */
  lemma TrimAppendSpace(s: string)
    ensures Trim(s + " ") == Trim(s)
  {
    var p, q := TrimParts(s);
    assert s + " " == p + Trim(s) + (q + " ");
    assert AllSpace(q + " ");
    TrimUnique(p, Trim(s), q + " ");
  }

  /** Leading white space does not survive trimming. */
  lemma TrimDropLeading(p: string, w: string)
    requires AllSpace(p)
    ensures Trim(p + w) == Trim(w)
  {
    var p', q := TrimParts(w);
    assert p + w == (p + p') + Trim(w) + q;
    assert AllSpace(p + p');
    TrimUnique(p + p', Trim(w), q);
  }

  /** ASCII `toUpperCase` of one character. */
  function ToUpper(c: char): (u: char)
    ensures IsSpace(u) <==> IsSpace(c)
    ensures !('a' <= u <= 'z')
    ensures 'a' <= c <= 'z' ==> 'A' <= u <= 'Z'
    ensures !('a' <= c <= 'z') ==> u == c
  {
    if 'a' <= c <= 'z' then (c as int - 32) as char else c
  }

  /** ASCII `toLowerCase` of one character. */
  function ToLower(c: char): (l: char)
    ensures IsSpace(l) <==> IsSpace(c)
    ensures !('A' <= l <= 'Z')
    ensures 'A' <= c <= 'Z' ==> 'a' <= l <= 'z'
    ensures !('A' <= c <= 'Z') ==> l == c
  {
    if 'A' <= c <= 'Z' then (c as int + 32) as char else c
  }

  /** Upper- and lower-casing are inverse on ASCII letters: each letter has
      exactly one counterpart of the other case, and casing back returns it. */
  lemma CaseRoundTrip(c: char)
    ensures 'a' <= c <= 'z' ==> ToLower(ToUpper(c)) == c
    ensures 'A' <= c <= 'Z' ==> ToUpper(ToLower(c)) == c
    ensures 'a' <= c <= 'z' ==> ToUpper(c) as int - 'A' as int == c as int - 'a' as int
  {
  }

  /** ASCII `toLowerCase` of a string. */
  function LowerAll(s: string): (r: string)
    ensures |r| == |s|
    ensures forall k :: 0 <= k < |s| ==> r[k] == ToLower(s[k])
  {
    seq(|s|, k requires 0 <= k < |s| => ToLower(s[k]))
  }

  /** `pat` occurs in `s` starting at index `i`. */
  predicate OccursAt(s: string, pat: string, i: nat) {
    i + |pat| <= |s| && s[i..i + |pat|] == pat
  }

  /** First index at or after `from` where `pat` occurs. */
  function IndexOfFrom(s: string, pat: string, from: nat): (r: Option<nat>)
    requires from <= |s|
    decreases |s| - from
    ensures r.Some? ==> from <= r.value && OccursAt(s, pat, r.value)
    ensures r.Some? ==> forall k :: from <= k < r.value ==> !OccursAt(s, pat, k)
    ensures r.None? ==> forall k :: from <= k ==> !OccursAt(s, pat, k)
  {
    if OccursAt(s, pat, from) then Some(from)
    else if from == |s| then None
    else IndexOfFrom(s, pat, from + 1)
  }

  /** `s.indexOf(pat)`, with `None` for JavaScript's -1: the first occurrence,
      if any. */
  function IndexOf(s: string, pat: string): (r: Option<nat>)
    ensures r.Some? ==> OccursAt(s, pat, r.value) && forall k :: 0 <= k < r.value ==> !OccursAt(s, pat, k)
    ensures r.None? ==> forall k: nat :: !OccursAt(s, pat, k)
  {
    IndexOfFrom(s, pat, 0)
  }

  /** `s.includes(pat)`. */
  predicate Contains(s: string, pat: string) {
    IndexOf(s, pat).Some?
  }

  /** `s.replace(pat, rep)` for a string pattern: only the first occurrence is replaced. */
  function ReplaceFirst(s: string, pat: string, rep: string): (r: string)
    ensures !Contains(s, pat) ==> r == s
    ensures Contains(s, pat) ==> |r| == |s| - |pat| + |rep|
  {
    match IndexOf(s, pat)
    case None => s
    case Some(i) => s[..i] + rep + s[i + |pat|..]
  }

  /** `includes` holds exactly when some occurrence exists. */
  lemma ContainsIff(s: string, pat: string)
    ensures Contains(s, pat) <==> exists k: nat :: OccursAt(s, pat, k)
  {
    if !Contains(s, pat) {
      assert forall k: nat :: !OccursAt(s, pat, k);
    }
  }

  /** `indexOf` returns an index exactly when the pattern occurs there and at
      no earlier index. */
  lemma IndexOfIs(s: string, pat: string, i: nat)
    requires OccursAt(s, pat, i)
    requires forall k :: 0 <= k < i ==> !OccursAt(s, pat, k)
    ensures IndexOf(s, pat) == Some(i)
  {
  }

  /** `replace` with a string pattern substitutes the replacement for the
      first occurrence, in place. */
  lemma ReplaceFirstAt(s: string, pat: string, rep: string, i: nat)
    requires OccursAt(s, pat, i)
    requires forall k :: 0 <= k < i ==> !OccursAt(s, pat, k)
    ensures Contains(s, pat)
    ensures ReplaceFirst(s, pat, rep) == s[..i] + rep + s[i + |pat|..]
  {
    IndexOfIs(s, pat, i);
  }

  /** An occurrence in a suffix is an occurrence in the whole string. */
  lemma ContainsSuffix(p: string, w: string, pat: string)
    requires !Contains(p + w, pat)
    ensures !Contains(w, pat)
  {
    if Contains(w, pat) {
      var k := IndexOf(w, pat).value;
      assert (p + w)[|p| + k..|p| + k + |pat|] == w[k..k + |pat|];
      assert OccursAt(p + w, pat, |p| + k);
      assert false;
    }
  }

  /** Appending a space and a pattern without spaces to a string that does not
      contain the pattern puts its first occurrence right after the space. */
  lemma FirstOccurrenceAfterSpace(w: string, pat: string)
    requires !Contains(w, pat)
    requires pat != [] && ' ' !in pat
    ensures IndexOf(w + " " + pat, pat) == Some(|w| + 1)
  {
    var y := w + " " + pat;
    forall k | 0 <= k < |w| + 1 ensures !OccursAt(y, pat, k) {
      if k + |pat| <= |w| {
        assert y[k..k + |pat|] == w[k..k + |pat|];
        assert !OccursAt(w, pat, k);
      } else {
        assert y[k..k + |pat|][|w| - k] == ' ';
      }
    }
    assert y[|w| + 1..|w| + 1 + |pat|] == pat;
    IndexOfIs(y, pat, |w| + 1);
  }
}
