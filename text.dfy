/** Strings as Python's `str` sees them: substring occurrence, `str.replace`
    and `str.join`. */
module Text {

  /** `p` occurs in `s` as a contiguous substring (Python's `p in s`). */
  predicate Contains(s: string, p: string)
    decreases |s|
  {
    p <= s || (s != [] && Contains(s[1..], p))
  }

  /** No character of `a` occurs in `b`. */
  predicate Disjoint(a: string, b: string)
  {
    forall c :: c in a ==> c !in b
  }

  /** Python's `s.replace(pattern, replacement)`: every occurrence of `pattern`,
      found from left to right without overlap, becomes `replacement`.  An empty
      pattern matches before every character and at the end. */
  function Replace(s: string, pattern: string, replacement: string): (r: string)
    ensures pattern != [] && replacement == pattern ==> r == s
    ensures pattern != [] && |replacement| == |pattern| ==> |r| == |s|
    decreases |s|
  {
    if pattern == [] then InsertAround(s, replacement)
    else if s == [] then []
    else if pattern <= s then
      var rest := Replace(s[|pattern|..], pattern, replacement);
      assert replacement == pattern ==> pattern + s[|pattern|..] == s by {
        assert s[..|pattern|] == pattern;
        assert s == s[..|pattern|] + s[|pattern|..];
      }
      replacement + rest
    else
      assert s == [s[0]] + s[1..];
      [s[0]] + Replace(s[1..], pattern, replacement)
  }

  /** `s.replace("", replacement)`: `replacement` before each character and at the end. */
  function InsertAround(s: string, replacement: string): (r: string)
    ensures |r| == |s| + (|s| + 1) * |replacement|
    ensures forall i :: 0 <= i <= |s| ==> CopyAt(r, replacement, i)
    ensures forall i :: 0 <= i < |s| ==> CharAt(r, replacement, i, s[i])
  {
    if s == [] then
      assert replacement[0..|replacement|] == replacement;
      replacement
    else
      var rest := InsertAround(s[1..], replacement);
      InsertAroundStep(s, replacement, rest);
      replacement + [s[0]] + rest
  }

  /** One step of `InsertAround`: a copy of `v` and the first character in front
      of the layout of the remaining characters gives the layout of all of `s`. */
  lemma InsertAroundStep(s: string, v: string, rest: string)
    requires s != []
    requires forall i :: 0 <= i <= |s| - 1 ==> CopyAt(rest, v, i)
    requires forall i :: 0 <= i < |s| - 1 ==> CharAt(rest, v, i, s[1..][i])
    ensures forall i :: 0 <= i <= |s| ==> CopyAt(v + [s[0]] + rest, v, i)
    ensures forall i :: 0 <= i < |s| ==> CharAt(v + [s[0]] + rest, v, i, s[i])
  {
    var whole := v + [s[0]] + rest;
    var n := |v| + 1;
    assert whole[0..|v|] == v;
    forall i | 1 <= i < |s|
      ensures CharAt(whole, v, i, s[i])
    {
      assert CharAt(rest, v, i - 1, s[1..][i - 1]);
      assert Slot(v, i) == n + Slot(v, i - 1);
    }
    forall i | 1 <= i <= |s|
      ensures CopyAt(whole, v, i)
    {
      assert CopyAt(rest, v, i - 1);
      var k := Slot(v, i - 1);
      assert Slot(v, i) == n + k;
      assert whole[n + k .. n + k + |v|] == rest[k .. k + |v|];
    }
  }

  /** Where slot `i` of an `InsertAround` result starts: each earlier slot
      holds one copy of `v` followed by one character. */
  function Slot(v: string, i: nat): nat
  {
    if i == 0 then 0 else Slot(v, i - 1) + |v| + 1
  }

  /** Slot `i` starts with a copy of `v`: the block before the `i`-th character,
      or the final block. */
  predicate CopyAt(r: string, v: string, i: nat)
  {
    Slot(v, i) + |v| <= |r| && r[Slot(v, i)..Slot(v, i) + |v|] == v
  }

  /** The character after the copy of `v` in slot `i` is `c`. */
  predicate CharAt(r: string, v: string, i: nat, c: char)
  {
    Slot(v, i) + |v| < |r| && r[Slot(v, i) + |v|] == c
  }

  /** Slot `i` starts at `i * (|v| + 1)`. */
  lemma {:induction false} SlotOffset(v: string, i: nat)
    ensures Slot(v, i) == i * (|v| + 1)
  {
    if i > 0 {
      SlotOffset(v, i - 1);
    }
  }

  /** Python's `sep.join(items)`. */
  function Join(sep: string, items: seq<string>): (r: string)
    ensures |items| == 1 ==> r == items[0]
  {
    if items == [] then []
    else if |items| == 1 then items[0]
    else
      items[0] + sep + Join(sep, items[1..])
  }

  /** Every item occurs in the joined text. */
  lemma {:induction false} JoinContains(sep: string, items: seq<string>)
    ensures forall i :: 0 <= i < |items| ==> Contains(Join(sep, items), items[i])
    decreases |items|
  {
    if |items| == 1 {
      assert items[0] <= items[0];
    } else if |items| > 1 {
      var rest := Join(sep, items[1..]);
      JoinContains(sep, items[1..]);
      assert Join(sep, items) == items[0] + (sep + rest);
      ContainsPrefixPart(items[0], sep + rest);
      ContainsExtendEach(items[0] + sep, rest, items[1..]);
      assert forall i :: 1 <= i < |items| ==> items[i] == items[1..][i - 1];
    }
  }

  /** `a` occurs in `a + t`. */
  lemma ContainsPrefixPart(a: string, t: string)
    ensures Contains(a + t, a)
  {
    assert a <= a + t;
  }

  /** `p` occurs in `b + y` when it occurs in `b`. */
  lemma {:induction false} ContainsAppendRight(b: string, y: string, p: string)
    ensures Contains(b, p) ==> Contains(b + y, p)
    decreases |b|
  {
    if b != [] {
      assert (b + y)[1..] == b[1..] + y;
      ContainsAppendRight(b[1..], y, p);
      if p <= b {
        assert p <= b + y;
      }
    }
  }

  /** Every text that occurs in `t` occurs in `a + t`. */
  lemma ContainsExtendEach(a: string, t: string, ps: seq<string>)
    ensures (forall i :: 0 <= i < |ps| ==> Contains(t, ps[i])) ==>
              forall i :: 0 <= i < |ps| ==> Contains(a + t, ps[i])
  {
    forall i | 0 <= i < |ps| ensures Contains(t, ps[i]) ==> Contains(a + t, ps[i]) {
      ContainsExtend(a, t, ps[i]);
    }
  }

  /** Whatever occurs in `t` occurs in `a + t + y`. */
  lemma ContainsInMiddle(a: string, t: string, y: string, p: string)
    ensures Contains(t, p) ==> Contains(a + t + y, p)
  {
    ContainsExtend(a, t, p);
    ContainsAppendRight(a + t, y, p);
  }

  /** Occurrence is transitive: what occurs in an occurrence occurs in the whole. */
  lemma {:induction false} ContainsTrans(a: string, b: string, c: string)
    ensures Contains(a, b) && Contains(b, c) ==> Contains(a, c)
    decreases |a|
  {
    if Contains(a, b) && Contains(b, c) {
      if b <= a {
        assert a == b + a[|b|..];
        ContainsAppendRight(b, a[|b|..], c);
      } else {
        ContainsTrans(a[1..], b, c);
      }
    }
  }

  /** Associativity of concatenation, stated on its own: proved in the loop
      body of `Context.BuildContext` the same fact exhausts the solver, while
      this call hands it over as a single equation. */
  lemma AppendAssoc(a: string, b: string, c: string)
    ensures (a + b) + c == a + (b + c)
  {
  }

  /** The pieces laid end to end, in order (Python's `"".join(pieces)`). */
  function Flatten(pieces: seq<string>): (r: string)
    ensures |pieces| == 1 ==> r == pieces[0]
  {
    assert |pieces| == 1 ==> pieces[..0] == [];
    if pieces == [] then "" else Flatten(pieces[..|pieces| - 1]) + pieces[|pieces| - 1]
  }

  /** Flattening distributes over concatenation of the piece lists. */
  lemma {:induction false} FlattenAppend(a: seq<string>, b: seq<string>)
    ensures Flatten(a + b) == Flatten(a) + Flatten(b)
    decreases |b|
  {
    if b == [] {
      assert a + b == a;
    } else {
      var b' := b[..|b| - 1];
      assert (a + b)[..|a + b| - 1] == a + b';
      FlattenAppend(a, b');
    }
  }

  /** Flattening one, two or three pieces. */
  lemma FlattenFew(pieces: seq<string>)
    ensures |pieces| == 1 ==> Flatten(pieces) == pieces[0]
    ensures |pieces| == 2 ==> Flatten(pieces) == pieces[0] + pieces[1]
    ensures |pieces| == 3 ==> Flatten(pieces) == pieces[0] + pieces[1] + pieces[2]
  {
    var n := |pieces|;
    if 1 <= n <= 3 {
      var p1 := pieces[..1];
      assert p1[..0] == [];
      assert Flatten(p1) == "" + pieces[0] == pieces[0];
      if n >= 2 {
        var p2 := pieces[..2];
        assert p2[..1] == p1;
        if n == 3 {
          assert pieces[..2] == p2;
        } else {
          assert pieces[..1] == p1;
        }
      } else {
        assert pieces == p1;
      }
    }
  }

  // ---------------------------------------------------------------------------
  // Facts about occurrences

  /** An occurrence in a suffix is an occurrence in the whole string. */
  lemma {:induction false} ContainsInSuffix(s: string, p: string, i: nat)
    requires i <= |s|
    ensures Contains(s[i..], p) ==> Contains(s, p)
    decreases i
  {
    if i > 0 {
      assert s[1..][i - 1..] == s[i..];
      ContainsInSuffix(s[1..], p, i - 1);
    }
  }

  /** An occurrence of `p` in `a + t` whose first character does not occur in
      `a` lies entirely in `t`. */
  lemma {:induction false} ContainsPastPrefix(a: string, t: string, p: string)
    requires p != [] && p[0] !in a
    ensures Contains(a + t, p) ==> Contains(t, p)
    decreases |a|
  {
    if a != [] {
      assert (a + t)[1..] == a[1..] + t;
      assert !(p <= a + t) by { assert (a + t)[0] == a[0]; }
      ContainsPastPrefix(a[1..], t, p);
    } else {
      assert a + t == t;
    }
  }

  /** If nothing of `k` occurs in the replacement, a prefix `k` of the
      replaced string was already a prefix of the original. */
  lemma {:induction false} ReplacePrefix(s: string, pattern: string, replacement: string, k: string)
    requires pattern != [] && replacement != [] && Disjoint(k, replacement)
    ensures k <= Replace(s, pattern, replacement) ==> k <= s
    decreases |s|
  {
    if k != [] && s != [] {
      if pattern <= s {
        assert k[0] in k && replacement[0] in replacement;
        assert (replacement + Replace(s[|pattern|..], pattern, replacement))[0] == replacement[0];
      } else {
        var r := Replace(s[1..], pattern, replacement);
        assert ([s[0]] + r)[1..] == r;
        ReplacePrefix(s[1..], pattern, replacement, k[1..]);
        if k <= [s[0]] + r {
          assert k[1..] <= r;
        }
      }
    }
  }

  /** Replacing a non-empty pattern by a non-empty text that shares no character
      with `k` creates no new occurrence of `k`. */
  lemma {:induction false} ReplaceAddsNothing(s: string, pattern: string, replacement: string, k: string)
    requires pattern != [] && replacement != [] && Disjoint(k, replacement)
    ensures Contains(Replace(s, pattern, replacement), k) ==> Contains(s, k)
    decreases |s|
  {
    if k == [] {
      assert k <= s;
    } else if s != [] {
      if pattern <= s {
        var rest := s[|pattern|..];
        assert k[0] in k;
        ContainsPastPrefix(replacement, Replace(rest, pattern, replacement), k);
        ReplaceAddsNothing(rest, pattern, replacement, k);
        ContainsInSuffix(s, k, |pattern|);
      } else {
        var r := Replace(s[1..], pattern, replacement);
        assert ([s[0]] + r)[1..] == r;
        ReplacePrefix(s, pattern, replacement, k);
        ReplaceAddsNothing(s[1..], pattern, replacement, k);
      }
    }
  }

  /** After `s.replace(pattern, replacement)` no occurrence of `pattern` is left,
      provided the replacement is non-empty and shares no character with it. */
  lemma {:induction false} ReplaceRemoves(s: string, pattern: string, replacement: string)
    requires pattern != [] && replacement != [] && Disjoint(pattern, replacement)
    ensures !Contains(Replace(s, pattern, replacement), pattern)
    decreases |s|
  {
    if s != [] {
      if pattern <= s {
        var rest := s[|pattern|..];
        assert pattern[0] in pattern;
        ContainsPastPrefix(replacement, Replace(rest, pattern, replacement), pattern);
        ReplaceRemoves(rest, pattern, replacement);
      } else {
        var r := Replace(s[1..], pattern, replacement);
        assert ([s[0]] + r)[1..] == r;
        ReplacePrefix(s, pattern, replacement, pattern);
        ReplaceRemoves(s[1..], pattern, replacement);
      }
    }
  }

  /** A text in which a non-empty pattern does not occur is returned unchanged. */
  lemma {:induction false} ReplaceAbsent(s: string, pattern: string, replacement: string)
    requires pattern != [] && !Contains(s, pattern)
    ensures Replace(s, pattern, replacement) == s
    decreases |s|
  {
    if s != [] {
      ReplaceAbsent(s[1..], pattern, replacement);
      assert [s[0]] + s[1..] == s;
    }
  }

  /** Where a non-empty pattern occurs, its replacement occurs in the result. */
  lemma {:induction false} ReplaceInserts(s: string, pattern: string, replacement: string)
    requires pattern != [] && Contains(s, pattern)
    ensures Contains(Replace(s, pattern, replacement), replacement)
    decreases |s|
  {
    if !(pattern <= s) {
      var r := Replace(s[1..], pattern, replacement);
      assert ([s[0]] + r)[1..] == r;
      ReplaceInserts(s[1..], pattern, replacement);
    }
  }

  // ---------------------------------------------------------------------------
  // Occurrences that a replacement leaves alone

  /** One of `a`, `b` is a prefix of the other: they can start at the same place. */
  predicate Compatible(a: string, b: string)
  {
    a <= b || b <= a
  }

  /** No occurrence of `p` can overlap an occurrence of `w`: `p` cannot start at
      any position inside `w`, and `w` cannot start strictly inside `p`. */
  predicate Apart(p: string, w: string)
  {
    (forall j :: 0 <= j < |w| ==> !Compatible(p, w[j..])) &&
    (forall j :: 0 < j < |p| ==> !Compatible(w, p[j..]))
  }

  /** Two prefixes of one string are compatible. */
  lemma PrefixesCompatible(a: string, b: string, s: string)
    ensures a <= s && b <= s ==> Compatible(a, b)
  {
    if a <= s && b <= s {
      if |a| <= |b| {
        assert forall k :: 0 <= k < |a| ==> a[k] == s[k] == b[k];
      } else {
        assert forall k :: 0 <= k < |b| ==> b[k] == s[k] == a[k];
      }
    }
  }

  /** Strings with no common character never overlap. */
  lemma DisjointApart(p: string, w: string)
    requires p != [] && w != [] && Disjoint(p, w)
    ensures Apart(p, w)
  {
    forall j | 0 <= j < |w| ensures !Compatible(p, w[j..]) {
      assert p[0] in p && w[j..][0] == w[j];
    }
    forall j | 0 < j < |p| ensures !Compatible(w, p[j..]) {
      assert p[j] in p && p[j..][0] == p[j];
    }
  }

  /** Strings neither of whose first characters occurs in the other never overlap. */
  lemma HeadsApart(p: string, w: string)
    requires p != [] && w != [] && p[0] !in w && w[0] !in p
    ensures Apart(p, w)
  {
    forall j | 0 <= j < |w| ensures !Compatible(p, w[j..]) {
      assert w[j..][0] == w[j];
    }
    forall j | 0 < j < |p| ensures !Compatible(w, p[j..]) {
      assert p[j..][0] == p[j];
    }
  }

  /** An occurrence in `t` is an occurrence in `a + t`. */
  lemma {:induction false} ContainsExtend(a: string, t: string, p: string)
    ensures Contains(t, p) ==> Contains(a + t, p)
    decreases |a|
  {
    if a == [] {
      assert a + t == t;
    } else {
      assert (a + t)[1..] == a[1..] + t;
      ContainsExtend(a[1..], t, p);
    }
  }

  /** A prefix `w[m..]` of `s` in which `p` cannot start survives the replacement
      of `p` as a prefix. */
  lemma {:induction false} ReplaceKeepsPrefix(s: string, pattern: string, replacement: string, w: string, m: nat)
    requires pattern != [] && m <= |w|
    requires forall j :: m <= j < |w| ==> !Compatible(pattern, w[j..])
    ensures w[m..] <= s ==> w[m..] <= Replace(s, pattern, replacement)
    decreases |s|
  {
    if m < |w| && w[m..] <= s {
      PrefixesCompatible(pattern, w[m..], s);
      var r := Replace(s[1..], pattern, replacement);
      assert w[m..][1..] == w[m + 1..];
      ReplaceKeepsPrefix(s[1..], pattern, replacement, w, m + 1);
      assert w[m + 1..] <= r;
    }
  }

  /** When `pattern` is a prefix of `s`, an occurrence of `w` in `s[j..]` with
      `j` inside the match lies beyond the match. */
  lemma {:induction false} OccurrencePastMatch(s: string, pattern: string, w: string, j: nat)
    requires pattern <= s && j <= |pattern| && w != [] && Apart(pattern, w)
    ensures Contains(s[j..], w) ==> Contains(s[|pattern|..], w)
    decreases |pattern| - j
  {
    if j < |pattern| {
      assert pattern[j..] <= s[j..];
      if j == 0 {
        assert s[0..] == s && pattern[0..] == pattern && w[0..] == w;
        PrefixesCompatible(pattern, w, s);
      } else {
        PrefixesCompatible(w, pattern[j..], s[j..]);
      }
      assert s[j..][1..] == s[j + 1..];
      OccurrencePastMatch(s, pattern, w, j + 1);
    }
  }

  /** An occurrence of `w` that no occurrence of `pattern` can overlap is still
      there after the replacement. */
  lemma {:induction false} ReplaceKeeps(s: string, pattern: string, replacement: string, w: string)
    requires pattern != [] && w != [] && Apart(pattern, w)
    ensures Contains(s, w) ==> Contains(Replace(s, pattern, replacement), w)
    decreases |s|
  {
    if s != [] {
      if pattern <= s {
        var rest := s[|pattern|..];
        assert s[0..] == s;
        OccurrencePastMatch(s, pattern, w, 0);
        ReplaceKeeps(rest, pattern, replacement, w);
        ContainsExtend(replacement, Replace(rest, pattern, replacement), w);
      } else {
        var r := Replace(s[1..], pattern, replacement);
        assert ([s[0]] + r)[1..] == r;
        assert w[0..] == w;
        ReplaceKeepsPrefix(s, pattern, replacement, w, 0);
        ReplaceKeeps(s[1..], pattern, replacement, w);
      }
    }
  }
}
