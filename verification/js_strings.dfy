/** The JavaScript string built-ins the modelled code calls: `trim`,
    `startsWith`, `replace`, `toLowerCase`, `includes`, `split` and the default
    ordering of `Array.prototype.sort`. */
module JsStrings {

  // ---------------------------------------------------------------------------
  // trim
  // ---------------------------------------------------------------------------

  /** The code points `String.prototype.trim` removes: the ECMAScript
      WhiteSpace and LineTerminator characters. */
  predicate IsWhitespace(c: char) {
    var n := c as int;
    || (0x09 <= n <= 0x0D)
    || n == 0x20 || n == 0xA0 || n == 0x1680
    || (0x2000 <= n <= 0x200A)
    || n == 0x2028 || n == 0x2029 || n == 0x202F || n == 0x205F
    || n == 0x3000 || n == 0xFEFF
  }

  predicate AllWhitespace(s: string) {
    forall i :: 0 <= i < |s| ==> IsWhitespace(s[i])
  }

  /** Neither end of `s` is whitespace. */
  predicate IsTrimmed(s: string) {
    s == [] || (!IsWhitespace(s[0]) && !IsWhitespace(s[|s| - 1]))
  }

  /** The first index at or after `i` that is not whitespace, or `|s|`. */
  function TrimStartIndex(s: string, i: nat): (k: nat)
    requires i <= |s|
    ensures i <= k <= |s|
    ensures forall j :: i <= j < k ==> IsWhitespace(s[j])
    ensures k < |s| ==> !IsWhitespace(s[k])
    decreases |s| - i
  {
    if i < |s| && IsWhitespace(s[i]) then TrimStartIndex(s, i + 1) else i
  }

  /** The end of the last character before `e`, and at or after `lo`, that
      is not whitespace; `lo` when there is none. */
  function TrimEndIndex(s: string, lo: nat, e: nat): (k: nat)
    requires lo <= e <= |s|
    ensures lo <= k <= e
    ensures forall j :: k <= j < e ==> IsWhitespace(s[j])
    ensures lo < k ==> !IsWhitespace(s[k - 1])
    decreases e
  {
    if lo < e && IsWhitespace(s[e - 1]) then TrimEndIndex(s, lo, e - 1) else e
  }

  /** `k` is where `r` sits inside `s`, with only whitespace around it. */
  predicate TrimSplit(s: string, r: string, k: nat) {
    && k + |r| <= |s|
    && r == s[k..k + |r|]
    && AllWhitespace(s[..k])
    && AllWhitespace(s[k + |r|..])
  }

  /** `s.trim()`: `s` without the whitespace at either end. */
  function Trim(s: string): (r: string)
    ensures IsTrimmed(r)
    ensures r == [] <==> AllWhitespace(s)
  {
    var a := TrimStartIndex(s, 0);
    var b := TrimEndIndex(s, a, |s|);
    if a == b then
      assert AllWhitespace(s);
      []
    else
      s[a..b]
  }

  /** The result of `Trim` is an infix of `s` with only whitespace around it. */
  lemma TrimIsInfix(s: string)
    ensures exists k: nat :: TrimSplit(s, Trim(s), k)
  {
    var a := TrimStartIndex(s, 0);
    var b := TrimEndIndex(s, a, |s|);
    var r := Trim(s);
    assert r == s[a..b] && |r| == b - a;
    assert AllWhitespace(s[..a]) by {
      forall j | 0 <= j < a ensures IsWhitespace(s[..a][j]) {
        assert s[..a][j] == s[j];
      }
    }
    assert AllWhitespace(s[b..]) by {
      forall j | 0 <= j < |s| - b ensures IsWhitespace(s[b..][j]) {
        assert s[b..][j] == s[b + j];
      }
    }
    assert TrimSplit(s, r, a);
  }

  /** Trimming a trimmed string changes nothing. */
  lemma TrimOfTrimmed(s: string)
    requires IsTrimmed(s)
    ensures Trim(s) == s
  {
  }

  /** Trim is idempotent. */
  lemma TrimIdempotent(s: string)
    ensures Trim(Trim(s)) == Trim(s)
  {
    TrimOfTrimmed(Trim(s));
  }

  // ---------------------------------------------------------------------------
  // startsWith, toLowerCase, includes
  // ---------------------------------------------------------------------------

  /** `s.startsWith(p)` */
  predicate StartsWith(s: string, p: string) {
    |p| <= |s| && s[..|p|] == p
  }

  /** `s.replace(p, "")` for a string pattern: the first occurrence of `p`
      removed, `s` itself when there is none. */
  function ReplaceFirst(s: string, p: string): (r: string)
    ensures StartsWith(s, p) ==> r == s[|p|..]
    ensures !Includes(s, p) ==> r == s
    decreases |s|
  {
    if StartsWith(s, p) then
      assert OccursAt(s, p, 0);
      s[|p|..]
    else if s == [] then s
    else
      var r := [s[0]] + ReplaceFirst(s[1..], p);
      assert !Includes(s, p) ==> !Includes(s[1..], p) by {
        if Includes(s[1..], p) {
          var i: nat :| i <= |s[1..]| && OccursAt(s[1..], p, i);
          assert s[i + 1..i + 1 + |p|] == s[1..][i..i + |p|];
          assert OccursAt(s, p, i + 1);
        }
      }
      r
  }

  /** The case mapping of `toLowerCase`, on the ASCII letters. */
  function LowerChar(c: char): (d: char)
    ensures 'A' <= c <= 'Z' ==> d as int == c as int + 32
    ensures !('A' <= c <= 'Z') ==> d == c
  {
    if 'A' <= c <= 'Z' then (c as int + 32) as char else c
  }

  /** `s.toLowerCase()` */
  function ToLower(s: string): (r: string)
    ensures |r| == |s|
    ensures forall i :: 0 <= i < |s| ==> r[i] == LowerChar(s[i])
  {
    seq(|s|, i requires 0 <= i < |s| => LowerChar(s[i]))
  }

  /** `t` occurs in `s` starting at index `i`. */
  predicate OccursAt(s: string, t: string, i: nat) {
    i + |t| <= |s| && s[i..i + |t|] == t
  }

  /** `s.includes(t)` */
  predicate Includes(s: string, t: string) {
    exists i: nat :: i <= |s| && OccursAt(s, t, i)
  }

  /** Every string includes the empty string. */
  lemma IncludesEmpty(s: string)
    ensures Includes(s, "")
  {
    assert OccursAt(s, "", 0);
  }

  /** `s.includes(t)` decided by scanning every start position. */
  method SearchIncludes(s: string, t: string) returns (found: bool)
    ensures found <==> Includes(s, t)
  {
    if |t| > |s| {
      return false;
    }
    var i := 0;
    while i + |t| <= |s|
      invariant i <= |s| - |t| + 1
      invariant forall j: nat :: j < i ==> !OccursAt(s, t, j)
    {
      if s[i..i + |t|] == t {
        assert OccursAt(s, t, i);
        return true;
      }
      i := i + 1;
    }
    return false;
  }

  // ---------------------------------------------------------------------------
  // split on one character, and its inverse
  // ---------------------------------------------------------------------------

  /** `s.split(sep)` for a one-character separator: the pieces between
      separators, always at least one. */
  function Split(s: string, sep: char): (r: seq<string>)
    ensures |r| >= 1
    ensures forall k :: 0 <= k < |r| ==> sep !in r[k]
    decreases |s|
  {
    if s == [] then [[]]
    else
      var rest := Split(s[1..], sep);
      if s[0] == sep then [[]] + rest
      else [[s[0]] + rest[0]] + rest[1..]
  }

  /** `parts.join(sep)` */
  function Join(parts: seq<string>, sep: char): string
    requires |parts| >= 1
    decreases |parts|
  {
    if |parts| == 1 then parts[0] else parts[0] + [sep] + Join(parts[1..], sep)
  }

  /** Joining the pieces of a split gives the string back. */
  lemma {:induction false} JoinSplit(s: string, sep: char)
    ensures Join(Split(s, sep), sep) == s
    decreases |s|
  {
    if s != [] {
      var rest := Split(s[1..], sep);
      JoinSplit(s[1..], sep);
      if s[0] != sep {
        if |rest| == 1 {
          assert Split(s, sep) == [[s[0]] + rest[0]];
        } else {
          calc {
            Join(Split(s, sep), sep);
            ([s[0]] + rest[0]) + [sep] + Join(rest[1..], sep);
            [s[0]] + (rest[0] + [sep] + Join(rest[1..], sep));
            [s[0]] + Join(rest, sep);
            [s[0]] + s[1..];
          }
        }
      } else {
        assert Split(s, sep) == [[]] + rest;
        assert ([[]] + rest)[1..] == rest;
      }
    }
  }

  /** Splitting `w + sep + rest`, where `w` holds no separator, yields `w`
      followed by the pieces of `rest`. */
  lemma {:induction false} SplitAfterWord(w: string, sep: char, rest: string)
    requires sep !in w
    ensures Split(w + [sep] + rest, sep) == [w] + Split(rest, sep)
    decreases |w|
  {
    var s := w + [sep] + rest;
    if w == [] {
      assert s[1..] == rest;
    } else {
      assert s[1..] == w[1..] + [sep] + rest;
      SplitAfterWord(w[1..], sep, rest);
      assert [w[0]] + w[1..] == w;
    }
  }

  /** Splitting a join of separator-free pieces gives the pieces back. */
  lemma {:induction false} SplitJoin(parts: seq<string>, sep: char)
    requires |parts| >= 1
    requires forall k :: 0 <= k < |parts| ==> sep !in parts[k]
    ensures Split(Join(parts, sep), sep) == parts
    decreases |parts|
  {
    if |parts| == 1 {
      SplitWord(parts[0], sep);
    } else {
      SplitJoin(parts[1..], sep);
      SplitAfterWord(parts[0], sep, Join(parts[1..], sep));
      assert [parts[0]] + parts[1..] == parts;
    }
  }

  /** A separator-free string splits into itself. */
  lemma {:induction false} SplitWord(w: string, sep: char)
    requires sep !in w
    ensures Split(w, sep) == [w]
    decreases |w|
  {
    if w != [] {
      SplitWord(w[1..], sep);
      assert [w[0]] + w[1..] == w;
    }
  }

  /** Conversely, the first piece is a prefix of the string, followed by a
      separator or by nothing. */
  lemma {:induction false} SplitHead(s: string, sep: char)
    ensures StartsWith(s, Split(s, sep)[0])
    ensures |Split(s, sep)[0]| == |s| || s[|Split(s, sep)[0]|] == sep
    decreases |s|
  {
    if s != [] && s[0] != sep {
      SplitHead(s[1..], sep);
      var w := Split(s[1..], sep)[0];
      assert Split(s, sep)[0] == [s[0]] + w;
      assert s[..|w| + 1] == [s[0]] + s[1..][..|w|];
    }
  }

  /** The first piece of `t + rest` is `t` when `t` holds no separator and
      `rest` is empty or begins with one. */
  lemma FirstPiece(t: string, sep: char, rest: string)
    requires sep !in t
    requires rest == [] || rest[0] == sep
    ensures Split(t + rest, sep)[0] == t
  {
    if rest == [] {
      assert t + rest == t;
      SplitWord(t, sep);
    } else {
      assert t + rest == t + [sep] + rest[1..];
      SplitAfterWord(t, sep, rest[1..]);
    }
  }

  // ---------------------------------------------------------------------------
  // default sort order
  // ---------------------------------------------------------------------------

  /** The order the default `Array.prototype.sort` puts strings in:
      lexicographic by character, a prefix first. */
  predicate LessEq(a: string, b: string)
    decreases |a|
  {
    a == [] || (b != [] && (a[0] < b[0] || (a[0] == b[0] && LessEq(a[1..], b[1..]))))
  }

  lemma {:induction false} LessEqTotal(a: string, b: string)
    ensures LessEq(a, b) || LessEq(b, a)
    decreases |a|
  {
    if a != [] && b != [] && a[0] == b[0] {
      LessEqTotal(a[1..], b[1..]);
    }
  }

  lemma {:induction false} LessEqTransitive(a: string, b: string, c: string)
    requires LessEq(a, b) && LessEq(b, c)
    ensures LessEq(a, c)
    decreases |a|
  {
    if a != [] && a[0] == b[0] && b[0] == c[0] {
      LessEqTransitive(a[1..], b[1..], c[1..]);
    }
  }

  predicate Sorted(xs: seq<string>) {
    forall i, j :: 0 <= i < j < |xs| ==> LessEq(xs[i], xs[j])
  }

  /** `x` sits at or below every element of `xs`. */
  predicate Below(x: string, xs: seq<string>) {
    forall k :: 0 <= k < |xs| ==> LessEq(x, xs[k])
  }

  /** Inserts `x` into a sorted sequence, keeping it sorted. */
  function Insert(x: string, xs: seq<string>): (r: seq<string>)
    requires Sorted(xs)
    ensures Sorted(r)
    ensures multiset(r) == multiset(xs) + multiset{x}
    decreases |xs|
  {
    if xs == [] then [x]
    else if LessEq(x, xs[0]) then
      assert Below(x, xs) by {
        forall k | 0 <= k < |xs| ensures LessEq(x, xs[k]) {
          if k > 0 { LessEqTransitive(x, xs[0], xs[k]); }
        }
      }
      [x] + xs
    else
      var tail := Insert(x, xs[1..]);
      assert xs == [xs[0]] + xs[1..];
      assert Below(xs[0], tail) by {
        LessEqTotal(x, xs[0]);
        forall k | 0 <= k < |tail| ensures LessEq(xs[0], tail[k]) {
          assert tail[k] in multiset(tail);
          assert tail[k] == x || tail[k] in multiset(xs[1..]);
          if tail[k] != x {
            var j :| 0 <= j < |xs[1..]| && xs[1..][j] == tail[k];
            assert xs[j + 1] == tail[k];
          }
        }
      }
      [xs[0]] + tail
  }

  /** `Array.prototype.sort()` with no comparator, as an insertion sort. */
  function SortStrings(xs: seq<string>): (r: seq<string>)
    ensures Sorted(r)
    ensures multiset(r) == multiset(xs)
    decreases |xs|
  {
    if xs == [] then []
    else
      assert xs == [xs[0]] + xs[1..];
      Insert(xs[0], SortStrings(xs[1..]))
  }
}
