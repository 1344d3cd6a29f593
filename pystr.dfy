/**
 * The part of Python's `str` that the gallery code relies on, with CPython's
 * meaning: `find` (and its -1 for "absent"), slicing with negative and
 * out-of-range bounds, `startswith`, `strip`/`lstrip`/`rstrip`, `split`,
 * `join` and `replace`; `lower` and `capitalize` are modelled on ASCII
 * letters only.
 */
module PyStr {

  // ---------------------------------------------------------------- characters

  /** `c.isspace()`: the characters that `strip()` without an argument removes. */
  predicate IsSpace(c: char) {
    || c == ' '
    || ('\U{9}' <= c <= '\U{D}')
    || ('\U{1C}' <= c <= '\U{1F}')
    || c == '\U{85}' || c == '\U{A0}' || c == '\U{1680}'
    || ('\U{2000}' <= c <= '\U{200A}')
    || c == '\U{2028}' || c == '\U{2029}' || c == '\U{202F}' || c == '\U{205F}' || c == '\U{3000}'
  }

  function LowerChar(c: char): char {
    if 'A' <= c <= 'Z' then (c as int + 32) as char else c
  }

  function UpperChar(c: char): char {
    if 'a' <= c <= 'z' then (c as int - 32) as char else c
  }

  /** `s.lower()` on ASCII letters; every other character is kept. */
  function Lower(s: string): (r: string)
    ensures |r| == |s|
    ensures forall i :: 0 <= i < |s| ==> r[i] == LowerChar(s[i])
  {
    seq(|s|, i requires 0 <= i < |s| => LowerChar(s[i]))
  }

  /** `w.capitalize()`: first character upper case, the rest lower case (ASCII). */
  function Capitalize(w: string): (r: string)
    ensures |r| == |w|
    ensures w != [] ==> r[0] == UpperChar(w[0]) && r[1..] == Lower(w[1..])
  {
    if w == [] then [] else [UpperChar(w[0])] + Lower(w[1..])
  }

  // ---------------------------------------------------------------- prefixes and occurrences

  /** `s.startswith(prefix)`. */
  predicate StartsWith(s: string, prefix: string) {
    |prefix| <= |s| && s[..|prefix|] == prefix
  }

  /** `pat` occurs in `s` starting at index `i`. */
  predicate OccursAt(s: string, pat: string, i: int) {
    0 <= i && i + |pat| <= |s| && s[i..i + |pat|] == pat
  }

  /** `pat` agrees with `s` character by character from index `i` on. */
  predicate Matches(s: string, pat: string, i: nat)
    decreases |pat|
  {
    pat == [] || (i < |s| && s[i] == pat[0] && Matches(s, pat[1..], i + 1))
  }

  /** `pat not in s`, for a non-empty `pat`. */
  ghost predicate NoOcc(s: string, pat: string) {
    forall k :: !OccursAt(s, pat, k)
  }

  /** `pat` occurs nowhere in `s` at or after index `from`. */
  ghost predicate NoneFrom(s: string, pat: string, from: int) {
    forall k :: from <= k ==> !OccursAt(s, pat, k)
  }

  /**
   * `s.find(pat, from)` for a non-empty `pat` and `from >= 0`: the first
   * index at or after `from` where `pat` occurs, or -1.
   */
  function FindFrom(s: string, pat: string, from: nat): (r: int)
    requires pat != []
    ensures r == -1 || (from <= r && r + |pat| <= |s|)
    decreases |s| - from
  {
    if from + |pat| > |s| then -1
    else if Matches(s, pat, from) then from
    else FindFrom(s, pat, from + 1)
  }

  /** `s.find(pat)`. */
  function Find(s: string, pat: string): int
    requires pat != []
  {
    FindFrom(s, pat, 0)
  }

  /** A search result inside a string that starts `n` characters later. */
  function Shift(n: nat, r: int): int {
    if r < 0 then -1 else n + r
  }

  /**
   * No occurrence of `pat` can straddle the border of `a + b`: the first
   * character of `b` appears in `pat` only at its head, or the last
   * character of `a` appears in `pat` only at its tail.
   */
  predicate Seam(a: string, b: string, pat: string) {
    || a == [] || b == [] || pat == []
    || b[0] !in pat[1..]
    || a[|a| - 1] !in pat[..|pat| - 1]
  }

  // ---------------------------------------------------------------- slicing

  /** How Python reads a slice bound `i` on a string of length `n`. */
  function SliceBound(i: int, n: nat): (r: nat)
    ensures r <= n
    ensures 0 <= i <= n ==> r == i
    ensures i < 0 && -i <= n ==> r == n + i
    ensures i > n ==> r == n
    ensures i < 0 && -i > n ==> r == 0
  {
    if i < 0 then (if i + n < 0 then 0 else i + n) else if i > n then n else i
  }

  /** `s[a:b]`: negative bounds count from the end, bounds are clamped, and the slice is empty when they cross. */
  function Slice(s: string, a: int, b: int): (r: string)
    ensures 0 <= a <= b <= |s| ==> r == s[a..b]
    ensures SliceBound(b, |s|) <= SliceBound(a, |s|) ==> r == []
  {
    var i, j := SliceBound(a, |s|), SliceBound(b, |s|);
    if i < j then s[i..j] else []
  }

  // ---------------------------------------------------------------- strip

  /** `s.lstrip(chars)`, the characters to remove given by `drop`. */
  function LStripWith(s: string, drop: char -> bool): (r: string)
    ensures |r| <= |s| && r == s[|s| - |r|..]
    ensures r != [] ==> !drop(r[0])
    ensures forall i :: 0 <= i < |s| - |r| ==> drop(s[i])
    decreases |s|
  {
    if s != [] && drop(s[0]) then LStripWith(s[1..], drop) else s
  }

  /** `s.rstrip(chars)`, the characters to remove given by `drop`. */
  function RStripWith(s: string, drop: char -> bool): (r: string)
    ensures |r| <= |s| && r == s[..|r|]
    ensures r != [] ==> !drop(r[|r| - 1])
    ensures forall i :: |r| <= i < |s| ==> drop(s[i])
    decreases |s|
  {
    if s != [] && drop(s[|s| - 1]) then RStripWith(s[..|s| - 1], drop) else s
  }

  /** `s.strip(chars)`. */
  function StripWith(s: string, drop: char -> bool): (r: string)
    ensures r != [] ==> !drop(r[0]) && !drop(r[|r| - 1])
    ensures forall c :: c in r ==> c in s
    ensures exists i, j :: 0 <= i <= j <= |s| && r == s[i..j]
                           && (forall k :: 0 <= k < i ==> drop(s[k]))
                           && (forall k :: j <= k < |s| ==> drop(s[k]))
  {
    var l := LStripWith(s, drop);
    var r := RStripWith(l, drop);
    InnerChars(s, l, r);
    StripEnds(s, drop, l, r);
    r
  }

  /** The strip of `s` is the slice of `s` between its dropped ends. */
  lemma StripEnds(s: string, drop: char -> bool, l: string, r: string)
    requires |l| <= |s| && l == s[|s| - |l|..] && forall k :: 0 <= k < |s| - |l| ==> drop(s[k])
    requires |r| <= |l| && r == l[..|r|] && forall k :: |r| <= k < |l| ==> drop(l[k])
    ensures exists i, j :: 0 <= i <= j <= |s| && r == s[i..j]
                           && (forall k :: 0 <= k < i ==> drop(s[k]))
                           && (forall k :: j <= k < |s| ==> drop(s[k]))
  {
    var i := |s| - |l|;
    var j := i + |r|;
    assert r == s[i..j];
    forall k | j <= k < |s| ensures drop(s[k]) {
      assert s[k] == l[k - i];
    }
  }

  /** A prefix of a suffix of `s` holds only characters of `s`, and starts where the suffix does. */
  lemma InnerChars(s: string, l: string, r: string)
    requires |l| <= |s| && l == s[|s| - |l|..] && |r| <= |l| && r == l[..|r|]
    ensures forall c :: c in r ==> c in s
    ensures r != [] ==> r[0] == l[0]
  {
    forall c | c in r ensures c in s {
      var i :| 0 <= i < |r| && r[i] == c;
      assert s[|s| - |l| + i] == c;
    }
  }

  /** `s.strip()`. */
  function Strip(s: string): string {
    StripWith(s, IsSpace)
  }

  /** What `strip()` leaves when it leaves anything: non-empty with a non-space at both ends. */
  predicate Trimmed(s: string) {
    s != [] && !IsSpace(s[0]) && !IsSpace(s[|s| - 1])
  }

  /** `s.rstrip()`. */
  function RStrip(s: string): string {
    RStripWith(s, IsSpace)
  }

  // ---------------------------------------------------------------- split, join, replace

  /** `s.split(sep)` for a non-empty separator: never an empty list. */
  function Split(s: string, sep: string): (parts: seq<string>)
    requires sep != []
    ensures parts != []
    decreases |s|
  {
    var i := Find(s, sep);
    if i < 0 then [s] else [s[..i]] + Split(s[i + |sep|..], sep)
  }

  /** `sep.join(parts)`. */
  function Join(sep: string, parts: seq<string>): (r: string)
    ensures parts != [] ==> |r| + |sep| == Spread(sep, parts)
  {
    if parts == [] then ""
    else if |parts| == 1 then parts[0]
    else parts[0] + sep + Join(sep, parts[1..])
  }

  /** The length of the pieces with one separator behind each. */
  function Spread(sep: string, parts: seq<string>): nat {
    if parts == [] then 0 else |parts[0]| + |sep| + Spread(sep, parts[1..])
  }

  /** `s.replace(target, with)`: every occurrence, left to right, without overlap. */
  function Replace(s: string, target: string, with: string): (r: string)
    requires target != []
    ensures NoOcc(s, target) ==> r == s
    decreases |s|
  {
    NoOccFind(s, target);
    var i := Find(s, target);
    if i < 0 then s else s[..i] + with + Replace(s[i + |target|..], target, with)
  }

  /** `''.join(parts)`. */
  function Concat(parts: seq<string>): string {
    if parts == [] then "" else parts[0] + Concat(parts[1..])
  }

  /** `''.join(f(x) for x in xs)`. */
  function ConcatMap<T>(xs: seq<T>, f: T -> string): string {
    if xs == [] then "" else f(xs[0]) + ConcatMap(xs[1..], f)
  }

  /** `[f(x) for x in xs if keep(x)]`. */
  function FilterMap<T, U>(xs: seq<T>, keep: T -> bool, f: T -> U): (r: seq<U>)
    ensures |r| <= |xs|
  {
    if xs == [] then [] else (if keep(xs[0]) then [f(xs[0])] else []) + FilterMap(xs[1..], keep, f)
  }

  /** `t` and `pat` differ at an index below both lengths. */
  predicate Departs(t: string, pat: string) {
    t != [] && pat != [] && (t[0] != pat[0] || Departs(t[1..], pat[1..]))
  }

  // ================================================================ lemmas

  /** Two patterns that occur one right after the other occur together. */
  lemma OccursJoin(s: string, a: string, b: string, k: int)
    requires OccursAt(s, a, k) && OccursAt(s, b, k + |a|)
    ensures OccursAt(s, a + b, k)
  {
    assert s[k..k + |a + b|] == s[k..k + |a|] + s[k + |a|..k + |a| + |b|];
  }

  /** An occurrence of `a + b` is one of `a` followed by one of `b`. */
  lemma OccursSplit(s: string, a: string, b: string, k: int)
    requires OccursAt(s, a + b, k)
    ensures OccursAt(s, a, k) && OccursAt(s, b, k + |a|)
  {
    assert s[k..k + |a|] == s[k..k + |a + b|][..|a|];
    assert s[k + |a|..k + |a| + |b|] == s[k..k + |a + b|][|a|..];
  }

  /** A pattern followed by a chain of four more occurs as the whole chain. */
  lemma OccursJoinChain(s: string, a: string, b: string, c: string, d: string, e: string, k: int)
    requires OccursAt(s, a, k) && OccursAt(s, b + c + d + e, k + |a|)
    ensures OccursAt(s, a + b + c + d + e, k)
  {
    OccursJoin(s, a, b + c + d + e, k);
    assert a + (b + c + d + e) == a + b + c + d + e;
  }

  /** A right-nested concatenation ends with the last character of its last part. */
  lemma LastOfNested(a: string, b: string, c: string, d: string, e: string, f: string)
    requires f != []
    ensures var s := a + (b + (c + (d + (e + f))));
            s[|s| - 1] == f[|f| - 1]
  {
    LastOfConcat(e, f);
    LastOfConcat(d, e + f);
    LastOfConcat(c, d + (e + f));
    LastOfConcat(b, c + (d + (e + f)));
    LastOfConcat(a, b + (c + (d + (e + f))));
  }

  /** A join followed by more text: its first part, then the separator and the rest of the join. */
  lemma JoinHead(sep: string, parts: seq<string>, a: string, b: string, c: string, tail: string)
    requires parts != [] && parts[0] == a + b + c
    ensures Join(sep, parts) + tail
         == a + (b + (c + (if |parts| == 1 then tail else sep + (Join(sep, parts[1..]) + tail))))
  {
  }

  /** A concatenation ends with the last character of its second part. */
  lemma LastOfConcat(a: string, b: string)
    requires b != []
    ensures (a + b)[|a + b| - 1] == b[|b| - 1]
  {
  }

  /** A text of three parts starts with the first, holds the second after it and ends with the third. */
  lemma Parts3(a: string, b: string, c: string)
    ensures StartsWith(a + b + c, a) && OccursAt(a + b + c, b, |a|)
    ensures |c| <= |a + b + c| && (a + b + c)[|a + b + c| - |c|..] == c
  {
    var r := a + b + c;
    assert r[..|a|] == a;
    assert r[|a|..|a| + |b|] == b;
    assert r[|r| - |c|..] == c;
  }

  /** A character missing from a text is missing from each of its suffixes. */
  lemma SuffixKeepsOut(s: string, n: nat, c: char)
    requires n <= |s| && c !in s
    ensures c !in s[n..]
  {
  }

  /** The text between two indices occurs where it starts. */
  lemma OccursSlice(s: string, i: nat, j: nat)
    requires i <= j <= |s|
    ensures OccursAt(s, s[i..j], i)
  {
  }

  lemma OccursLeft(a: string, b: string, pat: string, k: int)
    requires k + |pat| <= |a|
    ensures OccursAt(a + b, pat, k) <==> OccursAt(a, pat, k)
  {
    if 0 <= k {
      assert (a + b)[k..k + |pat|] == a[k..k + |pat|];
    }
  }

  lemma OccursRight(a: string, b: string, pat: string, k: int)
    requires |a| <= k
    ensures OccursAt(a + b, pat, k) <==> OccursAt(b, pat, k - |a|)
  {
    if k + |pat| <= |a| + |b| {
      assert (a + b)[k..k + |pat|] == b[k - |a|..k - |a| + |pat|];
    }
  }

  lemma NoStraddle(a: string, b: string, pat: string, k: int)
    requires pat != [] && Seam(a, b, pat)
    requires k < |a| < k + |pat|
    ensures !OccursAt(a + b, pat, k)
  {
    if 0 <= k && k + |pat| <= |a| + |b| {
      var d := |a| - k;
      var w := (a + b)[k..k + |pat|];
      assert w[d] == b[0] && w[d - 1] == a[|a| - 1];
      assert pat[1..][d - 1] == pat[d];
      assert pat[..|pat| - 1][d - 1] == pat[d - 1];
      if b[0] !in pat[1..] {
        assert w[d] != pat[d];
      } else {
        assert w[d - 1] != pat[d - 1];
      }
    }
  }

  /** Matching character by character is comparing the slice. */
  lemma {:induction false} MatchesIsSlice(s: string, pat: string, i: nat)
    requires i + |pat| <= |s|
    ensures Matches(s, pat, i) <==> s[i..i + |pat|] == pat
    decreases |pat|
  {
    if pat != [] {
      MatchesIsSlice(s, pat[1..], i + 1);
      assert s[i..i + |pat|] == [s[i]] + s[i + 1..i + 1 + |pat[1..]|];
      assert pat == [pat[0]] + pat[1..];
    }
  }

  /** `find` returns the first occurrence at or after `from`, or -1 when there is none. */
  lemma {:induction false} FindFromFirst(s: string, pat: string, from: nat)
    requires pat != []
    ensures FindFrom(s, pat, from) == -1 || OccursAt(s, pat, FindFrom(s, pat, from))
    ensures forall k :: from <= k && (FindFrom(s, pat, from) == -1 || k < FindFrom(s, pat, from)) ==> !OccursAt(s, pat, k)
    decreases |s| - from
  {
    if from + |pat| <= |s| {
      MatchesIsSlice(s, pat, from);
      if !Matches(s, pat, from) {
        FindFromFirst(s, pat, from + 1);
      }
    }
  }

  /** A search finds an occurrence at or before any occurrence at or after its start. */
  lemma FindAtMost(s: string, pat: string, from: nat, k: int)
    requires pat != [] && from <= k && OccursAt(s, pat, k)
    ensures 0 <= FindFrom(s, pat, from) <= k
  {
    FindFromFirst(s, pat, from);
  }

  /** Two searches in a row, the second from just past what the first found, find occurrences no later than `q0` and `r0`. */
  lemma FindsAtMost(s: string, m: string, c: string, from: nat, q0: int, r0: int)
    requires m != [] && c != [] && from <= q0 && OccursAt(s, m, q0) && q0 + |m| <= r0 && OccursAt(s, c, r0)
    ensures 0 <= FindFrom(s, m, from) <= q0
    ensures 0 <= FindFrom(s, c, FindFrom(s, m, from) + |m|) <= r0
  {
    FindAtMost(s, m, from, q0);
    FindAtMost(s, c, FindFrom(s, m, from) + |m|, r0);
  }

  /** Where a search succeeds, the pattern stands there and nowhere between the start and there. */
  lemma FoundFirst(s: string, pat: string, from: nat, r: int)
    requires pat != [] && r == FindFrom(s, pat, from) && r >= 0
    ensures OccursAt(s, pat, r) && forall k :: from <= k < r ==> !OccursAt(s, pat, k)
  {
    FindFromFirst(s, pat, from);
  }

  /** What `find` returns, when it finds something, is an occurrence. */
  lemma FindFound(s: string, pat: string, from: nat)
    requires pat != [] && FindFrom(s, pat, from) >= 0
    ensures OccursAt(s, pat, FindFrom(s, pat, from))
  {
    FindFromFirst(s, pat, from);
  }

  /** A first occurrence is what `find` returns. */
  lemma FindFromIs(s: string, pat: string, from: nat, r: int)
    requires pat != []
    requires r == -1 ==> forall k :: from <= k ==> !OccursAt(s, pat, k)
    requires r != -1 ==> from <= r && OccursAt(s, pat, r) && forall k :: from <= k < r ==> !OccursAt(s, pat, k)
    ensures FindFrom(s, pat, from) == r
  {
    FindFromFirst(s, pat, from);
  }

  /** An occurrence already inside `a` is found at the same place in `a + b`. */
  lemma FindPrefix(a: string, b: string, pat: string, from: nat)
    requires pat != [] && FindFrom(a, pat, from) >= 0
    ensures FindFrom(a + b, pat, from) == FindFrom(a, pat, from)
  {
    var r := FindFrom(a, pat, from);
    FindFromFirst(a, pat, from);
    OccursLeft(a, b, pat, r);
    forall k | from <= k < r ensures !OccursAt(a + b, pat, k) {
      OccursLeft(a, b, pat, k);
    }
    FindFromIs(a + b, pat, from, r);
  }

  /** Searching a prefix finds what the whole finds, when that fits in the prefix. */
  lemma FindInPrefix(s: string, pat: string, from: nat, n: nat)
    requires pat != [] && n <= |s|
    ensures var r := FindFrom(s, pat, from);
            FindFrom(s[..n], pat, from) == if r >= 0 && r + |pat| <= n then r else -1
  {
    var r := FindFrom(s, pat, from);
    FindFromFirst(s, pat, from);
    assert s == s[..n] + s[n..];
    forall k | 0 <= k && k + |pat| <= n ensures OccursAt(s[..n], pat, k) <==> OccursAt(s, pat, k) {
      OccursLeft(s[..n], s[n..], pat, k);
    }
    if r >= 0 && r + |pat| <= n {
      FindFromIs(s[..n], pat, from, r);
    } else {
      FindFromIs(s[..n], pat, from, -1);
    }
  }

  /**
   * Searching from the end of `a`, past text that lacks the pattern's first
   * character, finds the pattern right after that text.
   */
  lemma FindAfterFree(a: string, x: string, pat: string, rest: string)
    requires pat != [] && pat[0] !in x
    ensures FindFrom(a + (x + (pat + rest)), pat, |a|) == |a| + |x|
  {
    var s := a + (x + (pat + rest));
    forall k | |a| <= k < |a| + |x| ensures !OccursAt(s, pat, k) {
      if k + |pat| <= |s| {
        assert s[k..k + |pat|][0] == s[k] == x[k - |a|];
        assert x[k - |a|] in x;
      }
    }
    assert s[|a| + |x|..|a| + |x| + |pat|] == pat;
    FindFromIs(s, pat, |a|, |a| + |x|);
  }

  /** Right after an occurrence of `m`, which lacks `c`, stands the first `c` from there. */
  lemma FindCharAfter(s: string, m: string, c: char, start: nat)
    requires OccursAt(s, m, start) && c !in m && start + |m| < |s| && s[start + |m|] == c
    ensures FindFrom(s, [c], start) == start + |m|
  {
    forall i | start <= i < start + |m| ensures !OccursAt(s, [c], i) {
      assert s[i] == s[start..start + |m|][i - start];
      assert s[i..i + 1] == [s[i]];
    }
    assert s[start + |m|..start + |m| + 1] == [c];
    FindFromIs(s, [c], start, start + |m|);
  }

  /** The first occurrence of `m` is the first of a longer pattern that starts with `m` and occurs there. */
  lemma FindExtended(s: string, m: string, t: string, p: int)
    requires m != [] && Find(s, m) == p && p >= 0 && OccursAt(s, m + t, p)
    ensures Find(s, m + t) == p
  {
    FindFromFirst(s, m, 0);
    forall k | 0 <= k < p ensures !OccursAt(s, m + t, k) {
      if OccursAt(s, m + t, k) {
        assert s[k..k + |m|] == s[k..k + |m + t|][..|m|] == (m + t)[..|m|];
        assert OccursAt(s, m, k);
      }
    }
    FindFromIs(s, m + t, 0, p);
  }

  /** Searching `a + b` from inside `b` is searching `b`. */
  lemma FindShift(a: string, b: string, pat: string, from: nat)
    requires pat != [] && |a| <= from
    ensures FindFrom(a + b, pat, from) == Shift(|a|, FindFrom(b, pat, from - |a|))
  {
    var r := FindFrom(b, pat, from - |a|);
    FindFromFirst(b, pat, from - |a|);
    forall k | from <= k ensures OccursAt(a + b, pat, k) <==> OccursAt(b, pat, k - |a|) {
      OccursRight(a, b, pat, k);
    }
    if r >= 0 {
      FindFromIs(a + b, pat, from, |a| + r);
    } else {
      FindFromIs(a + b, pat, from, -1);
    }
  }

  /** When `a` holds no occurrence from `from` on and the seam is clean, the search goes on into `b`. */
  lemma FindPastFree(a: string, b: string, pat: string, from: nat)
    requires pat != [] && from <= |a|
    requires FindFrom(a, pat, from) == -1 && Seam(a, b, pat)
    ensures FindFrom(a + b, pat, from) == Shift(|a|, Find(b, pat))
  {
    FindFromFirst(a, pat, from);
    forall k | from <= k < |a| ensures !OccursAt(a + b, pat, k) {
      if k + |pat| <= |a| {
        OccursLeft(a, b, pat, k);
      } else {
        NoStraddle(a, b, pat, k);
      }
    }
    FindShift(a, b, pat, |a|);
    var r := FindFrom(a + b, pat, |a|);
    FindFromFirst(a + b, pat, |a|);
    if r >= 0 {
      FindFromIs(a + b, pat, from, r);
    } else {
      FindFromIs(a + b, pat, from, -1);
    }
  }

  /** A tail made of characters that `pat` does not use changes no search. */
  lemma FindInertTail(a: string, w: string, pat: string, from: nat)
    requires pat != []
    requires forall c :: c in w ==> c !in pat
    ensures FindFrom(a + w, pat, from) == FindFrom(a, pat, from)
  {
    FindFromFirst(a, pat, from);
    forall k | from <= k ensures OccursAt(a + w, pat, k) <==> OccursAt(a, pat, k) {
      if k + |pat| <= |a| {
        OccursLeft(a, w, pat, k);
      } else if 0 <= k && k + |pat| <= |a| + |w| {
        var j := if k < |a| then |a| else k;
        var u := (a + w)[k..k + |pat|];
        assert u[j - k] == w[j - |a|] && w[j - |a|] in w;
        assert pat[j - k] in pat;
      }
    }
    var r := FindFrom(a, pat, from);
    FindFromIs(a + w, pat, from, r);
  }

  lemma SliceSlice(s: string, i: nat, j: nat, a: nat, b: nat)
    requires i <= j <= |s| && a <= b <= j - i
    ensures s[i..j][a..b] == s[i + a..i + b]
  {
    var u, v := s[i..j][a..b], s[i + a..i + b];
    assert |u| == |v|;
    forall m | 0 <= m < |u| ensures u[m] == v[m] {
      assert u[m] == s[i..j][a + m] == s[i + a + m];
    }
  }

  lemma NoOccShort(s: string, pat: string)
    requires |s| < |pat|
    ensures NoOcc(s, pat)
  {
  }

  lemma NoOccMissingHead(s: string, pat: string)
    requires pat != [] && pat[0] !in s
    ensures NoOcc(s, pat)
  {
    forall k ensures !OccursAt(s, pat, k) {
      if 0 <= k && k + |pat| <= |s| {
        assert s[k..k + |pat|][0] == s[k] && s[k] in s;
      }
    }
  }

  lemma NoOccFind(s: string, pat: string)
    requires pat != []
    ensures NoOcc(s, pat) <==> Find(s, pat) == -1
  {
    FindFromFirst(s, pat, 0);
  }

  lemma NoOccConcat(a: string, b: string, pat: string)
    requires pat != [] && NoOcc(a, pat) && NoOcc(b, pat) && Seam(a, b, pat)
    ensures NoOcc(a + b, pat)
  {
    forall k ensures !OccursAt(a + b, pat, k) {
      if k + |pat| <= |a| {
        OccursLeft(a, b, pat, k);
      } else if k < |a| {
        NoStraddle(a, b, pat, k);
      } else {
        OccursRight(a, b, pat, k);
      }
    }
  }

  /** No text of `parts` holds `pat`. */
  ghost predicate AllFree(parts: seq<string>, pat: string) {
    forall k :: 0 <= k < |parts| ==> NoOcc(parts[k], pat)
  }

  /** Texts that each lack `pat`, one more in front. */
  lemma NoOccCons(first: string, rest: seq<string>, pat: string)
    requires NoOcc(first, pat) && AllFree(rest, pat)
    ensures AllFree([first] + rest, pat)
  {
    forall k | 0 <= k < |[first] + rest| ensures NoOcc(([first] + rest)[k], pat) {
      if k > 0 {
        assert ([first] + rest)[k] == rest[k - 1];
      }
    }
  }

  /** The text between `from` and an occurrence found there holds no occurrence. */
  lemma FreeBeforeFound(s: string, pat: string, from: nat, r: int, between: string)
    requires pat != [] && from <= |s| && r == FindFrom(s, pat, from) && r >= 0 && between == s[from..r]
    ensures NoOcc(between, pat)
  {
    FreeBeforeFind(s, pat, from, r);
  }

  /** The text between `from` and the first occurrence holds no occurrence. */
  lemma FreeBeforeFind(s: string, pat: string, from: nat, r: int)
    requires pat != [] && from <= |s| && r == FindFrom(s, pat, from)
    ensures r >= 0 ==> NoOcc(s[from..r], pat)
    ensures r < 0 ==> NoOcc(s[from..], pat)
  {
    var j := if r >= 0 then r else |s|;
    FindFromFirst(s, pat, from);
    forall k ensures !OccursAt(s[from..j], pat, k) {
      if 0 <= k && k + |pat| <= j - from {
        SliceSlice(s, from, j, k, k + |pat|);
        assert !OccursAt(s, pat, from + k);
      }
    }
    if r < 0 {
      assert s[from..j] == s[from..];
    }
  }

  lemma NoOccSlice(s: string, pat: string, i: nat, j: nat)
    requires i <= j <= |s| && NoOcc(s, pat)
    ensures NoOcc(s[i..j], pat)
  {
    forall k ensures !OccursAt(s[i..j], pat, k) {
      if 0 <= k && k + |pat| <= j - i {
        SliceSlice(s, i, j, k, k + |pat|);
        assert !OccursAt(s, pat, i + k);
      }
    }
  }

  lemma {:induction false} DepartsNotAt(t: string, rest: string, pat: string)
    requires Departs(t, pat)
    ensures !OccursAt(t + rest, pat, 0)
  {
    if |pat| <= |t + rest| && t[0] == pat[0] {
      DepartsNotAt(t[1..], rest, pat[1..]);
      assert (t + rest)[..|pat|][1..] == (t[1..] + rest)[..|pat| - 1];
    }
  }

  /** A front part without the pattern's first character adds no occurrence. */
  lemma NoOccPlainFront(x: string, rest: string, pat: string)
    requires pat != [] && pat[0] !in x && NoOcc(rest, pat)
    ensures NoOcc(x + rest, pat)
  {
    forall k ensures !OccursAt(x + rest, pat, k) {
      if 0 <= k < |x| && k + |pat| <= |x| + |rest| {
        assert (x + rest)[k..k + |pat|][0] == x[k] && x[k] in x;
      } else if k >= |x| {
        OccursRight(x, rest, pat, k);
      }
    }
  }

  /** A front part that could hold the pattern only at its head, and departs from it there. */
  lemma NoOccTagFront(t: string, rest: string, pat: string)
    requires pat != [] && t != [] && pat[0] !in t[1..] && Departs(t, pat) && NoOcc(rest, pat)
    ensures NoOcc(t + rest, pat)
  {
    forall k ensures !OccursAt(t + rest, pat, k) {
      if k == 0 {
        DepartsNotAt(t, rest, pat);
      } else if 0 < k < |t| && k + |pat| <= |t| + |rest| {
        assert (t + rest)[k..k + |pat|][0] == t[k] == t[1..][k - 1];
      } else if k >= |t| {
        OccursRight(t, rest, pat, k);
      }
    }
  }

  lemma NoOccEmpty(pat: string)
    requires pat != []
    ensures NoOcc([], pat)
  {
  }

  /** A join of pieces free of `pat`, on a separator that cannot start or continue it, is free of `pat`. */
  lemma {:induction false} NoOccJoin(sep: string, parts: seq<string>, pat: string)
    requires pat != [] && sep != [] && pat[0] !in sep && sep[0] !in pat[1..]
    requires forall k :: 0 <= k < |parts| ==> NoOcc(parts[k], pat)
    ensures NoOcc(Join(sep, parts), pat)
  {
    if |parts| > 1 {
      var rest := Join(sep, parts[1..]);
      NoOccJoin(sep, parts[1..], pat);
      NoOccPlainFront(sep, rest, pat);
      NoOccConcat(parts[0], sep + rest, pat);
      assert Join(sep, parts) == parts[0] + (sep + rest);
    }
  }

  /** `sep.join(s.split(sep)) == s`. */
  lemma {:induction false} JoinSplit(s: string, sep: string)
    requires sep != []
    ensures Join(sep, Split(s, sep)) == s
    decreases |s|
  {
    var i := Find(s, sep);
    if i >= 0 {
      var rest := s[i + |sep|..];
      JoinSplit(rest, sep);
      FindFromFirst(s, sep, 0);
      var parts := Split(s, sep);
      assert parts == [s[..i]] + Split(rest, sep);
      assert parts[1..] == Split(rest, sep);
      assert s[i..i + |sep|] == sep;
      assert s == s[..i] + sep + rest;
    }
  }

  /** Splitting on one character gives back the pieces joined on it, when no piece holds that character. */
  lemma {:induction false} SplitJoin(c: char, parts: seq<string>)
    requires parts != []
    requires forall k :: 0 <= k < |parts| ==> c !in parts[k]
    ensures Split(Join([c], parts), [c]) == parts
    decreases |parts|
  {
    var s := Join([c], parts);
    NoOccMissingHead(parts[0], [c]);
    if |parts| == 1 {
      assert s == parts[0];
      FindFromIs(s, [c], 0, -1);
    } else {
      var tail := Join([c], parts[1..]);
      assert s == parts[0] + [c] + tail;
      forall k | 0 <= k < |parts[0]| ensures !OccursAt(s, [c], k) {
        assert s[k] == parts[0][k];
      }
      assert s[|parts[0]|..|parts[0]| + 1] == [c];
      FindFromIs(s, [c], 0, |parts[0]|);
      assert s[..|parts[0]|] == parts[0];
      assert s[|parts[0]| + 1..] == tail;
      SplitJoin(c, parts[1..]);
    }
  }

  /** `s.replace(target, with) == with.join(s.split(target))`, the documented equivalence. */
  lemma {:induction false} ReplaceIsJoinSplit(s: string, target: string, with: string)
    requires target != []
    ensures Replace(s, target, with) == Join(with, Split(s, target))
    decreases |s|
  {
    var i := Find(s, target);
    if i >= 0 {
      var rest := s[i + |target|..];
      ReplaceIsJoinSplit(rest, target, with);
      var parts := Split(s, target);
      assert parts[1..] == Split(rest, target);
    }
  }

  /** Every piece of a split is free of the separator. */
  lemma {:induction false} SplitPiecesFree(s: string, sep: string)
    requires sep != []
    ensures forall k :: 0 <= k < |Split(s, sep)| ==> NoOcc(Split(s, sep)[k], sep)
    decreases |s|
  {
    var i := Find(s, sep);
    var parts := Split(s, sep);
    FreeBeforeFind(s, sep, 0, i);
    if i >= 0 {
      var rest := s[i + |sep|..];
      SplitPiecesFree(rest, sep);
      var later := Split(rest, sep);
      assert parts == [s[..i]] + later;
      assert s[0..i] == s[..i];
      forall k | 0 <= k < |parts| ensures NoOcc(parts[k], sep) {
        if k > 0 {
          assert parts[k] == later[k - 1];
        }
      }
    } else {
      assert s[0..] == s;
    }
  }

  /** A character missing from `s` is missing from every piece of its split. */
  lemma {:induction false} SplitFree(s: string, sep: string, c: char)
    requires sep != [] && c !in s
    ensures forall k :: 0 <= k < |Split(s, sep)| ==> c !in Split(s, sep)[k]
    decreases |s|
  {
    var i := Find(s, sep);
    if i >= 0 {
      var rest := s[i + |sep|..];
      assert forall x :: x in rest ==> x in s;
      SplitFree(rest, sep, c);
      var parts := Split(s, sep);
      assert parts == [s[..i]] + Split(rest, sep);
      forall k | 0 <= k < |parts| ensures c !in parts[k] {
        if k > 0 {
          assert parts[k] == Split(rest, sep)[k - 1];
        } else {
          assert forall x :: x in s[..i] ==> x in s;
        }
      }
    }
  }

  /** A character missing from the separator and from every piece is missing from their join. */
  lemma {:induction false} JoinFree(sep: string, parts: seq<string>, c: char)
    requires c !in sep && forall k :: 0 <= k < |parts| ==> c !in parts[k]
    ensures c !in Join(sep, parts)
    decreases |parts|
  {
    if |parts| > 1 {
      assert c !in parts[0];
      JoinFree(sep, parts[1..], c);
    } else if |parts| == 1 {
      assert c !in parts[0];
    }
  }

  /** A join ends with the last character of its last piece. */
  lemma {:induction false} JoinLast(sep: string, parts: seq<string>)
    requires parts != [] && parts[|parts| - 1] != []
    ensures Join(sep, parts) != []
    ensures Join(sep, parts)[|Join(sep, parts)| - 1] == parts[|parts| - 1][|parts[|parts| - 1]| - 1]
    decreases |parts|
  {
    if |parts| > 1 {
      JoinLast(sep, parts[1..]);
    }
  }

  /** A join starts with the first character of its first piece. */
  lemma JoinFirst(sep: string, parts: seq<string>)
    requires parts != [] && parts[0] != []
    ensures Join(sep, parts) != [] && Join(sep, parts)[0] == parts[0][0]
  {
  }

  /** `strip()` leaves a text alone that starts and ends with a non-space. */
  lemma StripKeeps(s: string)
    requires s != [] && !IsSpace(s[0]) && !IsSpace(s[|s| - 1])
    ensures Strip(s) == s
  {
    assert LStripWith(s, IsSpace) == s;
    assert RStripWith(s, IsSpace) == s;
  }

  /** `strip()` keeps a slice of its argument, so it adds no occurrence. */
  lemma StripNoOcc(s: string, pat: string)
    requires NoOcc(s, pat)
    ensures NoOcc(Strip(s), pat)
  {
    var l := LStripWith(s, IsSpace);
    NoOccSlice(s, pat, |s| - |l|, |s|);
    assert s[|s| - |l|..|s|] == l;
    var r := RStripWith(l, IsSpace);
    NoOccSlice(l, pat, 0, |r|);
    assert l[0..|r|] == r;
  }

  /** `s.replace(target, with)` adds no character that neither `s` nor `with` holds. */
  lemma ReplaceFree(s: string, target: string, with: string, c: char)
    requires target != [] && c !in s && c !in with
    ensures c !in Replace(s, target, with)
  {
    ReplaceIsJoinSplit(s, target, with);
    SplitFree(s, target, c);
    JoinFree(with, Split(s, target), c);
  }

  /** Each text in lower case. */
  function LowerEach(parts: seq<string>): (r: seq<string>)
    ensures |r| == |parts|
    ensures forall k :: 0 <= k < |parts| ==> r[k] == Lower(parts[k])
  {
    seq(|parts|, k requires 0 <= k < |parts| => Lower(parts[k]))
  }

  lemma LowerConcat(a: string, b: string)
    ensures Lower(a + b) == Lower(a) + Lower(b)
  {
  }

  /** Lower case distributes over a join whose separator it leaves alone. */
  lemma {:induction false} LowerJoin(sep: string, parts: seq<string>)
    requires Lower(sep) == sep
    ensures Lower(Join(sep, parts)) == Join(sep, LowerEach(parts))
    decreases |parts|
  {
    if |parts| > 1 {
      LowerJoin(sep, parts[1..]);
      LowerConcat(parts[0] + sep, Join(sep, parts[1..]));
      LowerConcat(parts[0], sep);
      assert LowerEach(parts)[1..] == LowerEach(parts[1..]);
    }
  }

  /** Capitalizing changes nothing once the word is put in lower case. */
  lemma LowerCapitalize(w: string)
    ensures Lower(Capitalize(w)) == Lower(w)
  {
    var c := Capitalize(w);
    forall i | 0 <= i < |w| ensures LowerChar(c[i]) == LowerChar(w[i]) {
      if i > 0 {
        assert c[i] == c[1..][i - 1];
      }
    }
  }

  /** Lower case turns no other character into `c`, unless `c` is an ASCII letter. */
  lemma LowerFree(s: string, c: char)
    requires c !in s && !('a' <= c <= 'z') && !('A' <= c <= 'Z')
    ensures c !in Lower(s)
  {
    forall i | 0 <= i < |s| ensures Lower(s)[i] != c {
      assert s[i] in s;
    }
  }

  /** Case changes keep every character that is not an ASCII letter. */
  lemma CapitalizeFree(w: string, c: char)
    requires c !in w && !('a' <= c <= 'z') && !('A' <= c <= 'Z')
    ensures c !in Capitalize(w)
  {
    if w != [] {
      assert w[0] in w;
      assert forall i :: 0 <= i < |w[1..]| ==> w[1..][i] in w;
    }
  }

  /** A text that departs from the pattern still does with more text behind it. */
  lemma {:induction false} DepartsLonger(t: string, u: string, pat: string)
    requires Departs(t, pat)
    ensures Departs(t + u, pat)
  {
    if t[0] == pat[0] {
      DepartsLonger(t[1..], u, pat[1..]);
      assert (t + u)[1..] == t[1..] + u;
    }
  }

  /** A one-character pattern that never occurs: the character is absent. */
  lemma NoOccChar(s: string, c: char)
    requires NoOcc(s, [c])
    ensures c !in s
  {
    forall i | 0 <= i < |s| ensures s[i] != c {
      assert !OccursAt(s, [c], i);
      assert s[i..i + 1] == [s[i]];
    }
  }

  lemma {:induction false} ConcatMapSnoc<T>(xs: seq<T>, x: T, f: T -> string)
    ensures ConcatMap(xs + [x], f) == ConcatMap(xs, f) + f(x)
  {
    if xs == [] {
      assert xs + [x] == [x];
    } else {
      assert (xs + [x])[1..] == xs[1..] + [x];
      ConcatMapSnoc(xs[1..], x, f);
    }
  }

  /** One more step of a loop that appends `f(xs[i])`. */
  lemma ConcatMapPrefix<T>(xs: seq<T>, i: nat, f: T -> string)
    requires i < |xs|
    ensures ConcatMap(xs[..i + 1], f) == ConcatMap(xs[..i], f) + f(xs[i])
  {
    assert xs[..i + 1] == xs[..i] + [xs[i]];
    ConcatMapSnoc(xs[..i], xs[i], f);
  }

  lemma {:induction false} ConcatMapConcat<T>(xs: seq<T>, ys: seq<T>, f: T -> string)
    ensures ConcatMap(xs + ys, f) == ConcatMap(xs, f) + ConcatMap(ys, f)
  {
    if xs == [] {
      assert xs + ys == ys;
    } else {
      assert (xs + ys)[1..] == xs[1..] + ys;
      ConcatMapConcat(xs[1..], ys, f);
    }
  }

  /** One more step of a loop that appends `f(xs[i])` when `keep(xs[i])`. */
  lemma FilterMapPrefix<T, U>(xs: seq<T>, i: nat, keep: T -> bool, f: T -> U)
    requires i < |xs|
    ensures FilterMap(xs[..i + 1], keep, f) == FilterMap(xs[..i], keep, f) + (if keep(xs[i]) then [f(xs[i])] else [])
  {
    assert xs[..i + 1] == xs[..i] + [xs[i]];
    FilterMapSnoc(xs[..i], xs[i], keep, f);
  }

  lemma {:induction false} FilterMapSnoc<T, U>(xs: seq<T>, x: T, keep: T -> bool, f: T -> U)
    ensures FilterMap(xs + [x], keep, f) == FilterMap(xs, keep, f) + (if keep(x) then [f(x)] else [])
  {
    if xs == [] {
      assert xs + [x] == [x];
    } else {
      var head := if keep(xs[0]) then [f(xs[0])] else [];
      var last := if keep(x) then [f(x)] else [];
      assert (xs + [x])[1..] == xs[1..] + [x];
      assert FilterMap(xs + [x], keep, f) == head + FilterMap(xs[1..] + [x], keep, f);
      FilterMapSnoc(xs[1..], x, keep, f);
      assert head + (FilterMap(xs[1..], keep, f) + last) == (head + FilterMap(xs[1..], keep, f)) + last;
    }
  }

  /** An element is in the result exactly when it is `f` of a kept element. */
  lemma {:induction false} FilterMapMembers<T, U>(xs: seq<T>, keep: T -> bool, f: T -> U, y: U)
    ensures y in FilterMap(xs, keep, f) <==> exists j :: 0 <= j < |xs| && keep(xs[j]) && f(xs[j]) == y
  {
    if xs != [] {
      FilterMapMembers(xs[1..], keep, f, y);
      if y in FilterMap(xs[1..], keep, f) {
        var j :| 0 <= j < |xs[1..]| && keep(xs[1..][j]) && f(xs[1..][j]) == y;
        assert xs[j + 1] == xs[1..][j];
      }
      forall j | 1 <= j < |xs| && keep(xs[j]) && f(xs[j]) == y ensures y in FilterMap(xs[1..], keep, f) {
        assert xs[1..][j - 1] == xs[j];
      }
    }
  }

  /** Every element of the result satisfies what `f` guarantees of kept elements. */
  lemma {:induction false} FilterMapAll<T, U>(xs: seq<T>, keep: T -> bool, f: T -> U, good: U -> bool)
    requires forall k :: 0 <= k < |xs| && keep(xs[k]) ==> good(f(xs[k]))
    ensures forall k :: 0 <= k < |FilterMap(xs, keep, f)| ==> good(FilterMap(xs, keep, f)[k])
  {
    if xs != [] {
      FilterMapAll(xs[1..], keep, f, good);
      var r := FilterMap(xs, keep, f);
      var rest := FilterMap(xs[1..], keep, f);
      var head := if keep(xs[0]) then [f(xs[0])] else [];
      assert r == head + rest;
      forall k | 0 <= k < |r| ensures good(r[k]) {
        if k < |head| {
          assert r[k] == f(xs[0]);
        } else {
          assert r[k] == rest[k - |head|];
        }
      }
    }
  }
}
