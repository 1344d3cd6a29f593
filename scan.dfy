/**
 * `re.findall(OPEN + r'(.*?)' + CLOSE, s, re.DOTALL)` for literal OPEN and
 * CLOSE, written as the chain of `find` calls it amounts to: the lazy group
 * always ends at the first CLOSE after its OPEN, and the next match is
 * searched for after that CLOSE.
 */
module Scan {
  import opened PyStr

  /** The text of every `OPEN ... CLOSE` span of `s`, in document order. */
  function Between(s: string, open: string, close: string): (r: seq<string>)
    requires open != [] && close != []
    ensures AllFree(r, close)
    decreases |s|
  {
    var i := Find(s, open);
    if i < 0 then []
    else
      var j := FindFrom(s, close, i + |open|);
      if j < 0 then []
      else
        var body, rest := s[i + |open|..j], Between(s[j + |close|..], open, close);
        FreeBeforeFound(s, close, i + |open|, j, body);
        NoOccCons(body, rest, close);
        [body] + rest
  }

  /** After its last complete span, `s` opens no further span. */
  predicate Balanced(s: string, open: string, close: string)
    requires open != [] && close != []
    decreases |s|
  {
    var i := Find(s, open);
    i < 0 || (var j := FindFrom(s, close, i + |open|); j >= 0 && Balanced(s[j + |close|..], open, close))
  }

  // ---------------------------------------------------------------- one step of the scan

  /** One step of the scan, with the span's text and the rest named. */
  lemma BetweenStep(s: string, open: string, close: string, i: nat, j: nat, body: string, rest: string)
    requires open != [] && close != []
    requires Find(s, open) == i && FindFrom(s, close, i + |open|) == j
    requires s[i + |open|..j] == body && s[j + |close|..] == rest
    ensures Between(s, open, close) == [body] + Between(rest, open, close)
    ensures Balanced(s, open, close) == Balanced(rest, open, close)
  {
    BalancedStep(s, open, close, i, j, rest);
  }

  lemma BalancedStep(s: string, open: string, close: string, i: nat, j: nat, rest: string)
    requires open != [] && close != []
    requires Find(s, open) == i && FindFrom(s, close, i + |open|) == j
    requires s[j + |close|..] == rest
    ensures Balanced(s, open, close) == Balanced(rest, open, close)
  {
  }

  /** The scan finds no opening literal. */
  lemma BetweenNone(s: string, open: string, close: string)
    requires open != [] && close != [] && Find(s, open) < 0
    ensures Between(s, open, close) == [] && Balanced(s, open, close)
  {
  }

  /** The scan finds an opening literal that is never closed. */
  lemma BetweenUnclosed(s: string, open: string, close: string, i: nat)
    requires open != [] && close != []
    requires Find(s, open) == i && FindFrom(s, close, i + |open|) < 0
    ensures Between(s, open, close) == [] && !Balanced(s, open, close)
  {
  }

  /** A balanced text that opens a span also closes it. */
  lemma BalancedCloses(s: string, open: string, close: string, i: nat)
    requires open != [] && close != []
    requires Balanced(s, open, close) && Find(s, open) == i
    ensures FindFrom(s, close, i + |open|) >= 0
  {
  }

  // ---------------------------------------------------------------- what the spans hold

  // ---------------------------------------------------------------- scans of concatenations

  /** The first span of `b`, found again after a prefix `a`. */
  lemma ShiftedStep(a: string, b: string, open: string, close: string, ib: nat, jb: nat)
    requires open != [] && close != []
    requires Find(a + b, open) == |a| + ib && FindFrom(a + b, close, |a| + ib + |open|) == |a| + jb
    requires Find(b, open) == ib && FindFrom(b, close, ib + |open|) == jb
    ensures Between(a + b, open, close) == Between(b, open, close)
    ensures Balanced(a + b, open, close) == Balanced(b, open, close)
  {
    var body, rest := b[ib + |open|..jb], b[jb + |close|..];
    assert (a + b)[|a| + ib + |open|..|a| + jb] == body;
    assert (a + b)[|a| + jb + |close|..] == rest;
    BetweenStep(a + b, open, close, |a| + ib, |a| + jb, body, rest);
    BetweenStep(b, open, close, ib, jb, body, rest);
  }

  /** The first span of `a`, found at the same place in `a + b`. */
  lemma PrefixStep(a: string, b: string, open: string, close: string, i: nat, j: nat)
    requires open != [] && close != []
    requires Find(a, open) == i && FindFrom(a, close, i + |open|) == j
    requires Find(a + b, open) == i && FindFrom(a + b, close, i + |open|) == j
    ensures Between(a, open, close) == [a[i + |open|..j]] + Between(a[j + |close|..], open, close)
    ensures Between(a + b, open, close) == [a[i + |open|..j]] + Between(a[j + |close|..] + b, open, close)
    ensures Balanced(a, open, close) == Balanced(a[j + |close|..], open, close)
    ensures Balanced(a + b, open, close) == Balanced(a[j + |close|..] + b, open, close)
  {
    var body, rest := a[i + |open|..j], a[j + |close|..];
    assert (a + b)[i + |open|..j] == body;
    assert (a + b)[j + |close|..] == rest + b;
    BetweenStep(a, open, close, i, j, body, rest);
    BetweenStep(a + b, open, close, i, j, body, rest + b);
  }

  /** Text that opens no span, followed by a text that cannot continue an opening literal, adds no span. */
  lemma FreeFront(a: string, b: string, open: string, close: string)
    requires open != [] && close != []
    requires Find(a, open) < 0 && Seam(a, b, open)
    ensures Between(a + b, open, close) == Between(b, open, close)
    ensures Balanced(a + b, open, close) == Balanced(b, open, close)
  {
    FindPastFree(a, b, open, 0);
    var ib := Find(b, open);
    if ib < 0 {
      BetweenNone(a + b, open, close);
      BetweenNone(b, open, close);
    } else {
      FindShift(a, b, close, |a| + ib + |open|);
      var jb := FindFrom(b, close, ib + |open|);
      if jb < 0 {
        BetweenUnclosed(a + b, open, close, |a| + ib);
        BetweenUnclosed(b, open, close, ib);
      } else {
        ShiftedStep(a, b, open, close, ib, jb);
      }
    }
  }

  /** The first span of `a`, followed by the spans the rest of `a` and `b` give together. */
  lemma ConcatStep(a: string, b: string, open: string, close: string, i: nat, j: nat)
    requires open != [] && close != []
    requires Find(a, open) == i && FindFrom(a, close, i + |open|) == j
    requires Between(a[j + |close|..] + b, open, close) == Between(a[j + |close|..], open, close) + Between(b, open, close)
    ensures Between(a + b, open, close) == Between(a, open, close) + Between(b, open, close)
  {
    PrefixFinds(a, b, open, close, i, j);
    var x, rest := a[i + |open|..j], a[j + |close|..];
    assert (a + b)[i + |open|..j] == x;
    assert (a + b)[j + |close|..] == rest + b;
    BetweenStep(a, open, close, i, j, x, rest);
    BetweenStep(a + b, open, close, i, j, x, rest + b);
    ConsAssoc(Between(a, open, close), Between(a + b, open, close), Between(rest, open, close),
      Between(rest + b, open, close), Between(b, open, close), x);
  }

  lemma ConsAssoc<T>(ys: seq<T>, zs: seq<T>, r: seq<T>, rb: seq<T>, b: seq<T>, x: T)
    requires ys == [x] + r && zs == [x] + rb && rb == r + b
    ensures zs == ys + b
  {
  }

  /** Balance of `a + b` after a complete first span of `a` is that of the rest of `a` and `b`. */
  lemma ConcatBalancedStep(a: string, b: string, open: string, close: string, i: nat, j: nat)
    requires open != [] && close != []
    requires Find(a, open) == i && FindFrom(a, close, i + |open|) == j
    requires Balanced(a[j + |close|..] + b, open, close) == Balanced(b, open, close)
    ensures Balanced(a + b, open, close) == Balanced(b, open, close)
  {
    PrefixFinds(a, b, open, close, i, j);
    var rest := a[j + |close|..];
    assert (a + b)[j + |close|..] == rest + b;
    BalancedStep(a + b, open, close, i, j, rest + b);
  }

  /** A complete first span of `a` is the first span of `a + b`. */
  lemma PrefixFinds(a: string, b: string, open: string, close: string, i: nat, j: nat)
    requires open != [] && close != []
    requires Find(a, open) == i && FindFrom(a, close, i + |open|) == j
    ensures Find(a + b, open) == i && FindFrom(a + b, close, i + |open|) == j
  {
    FindPrefix(a, b, open, 0);
    FindPrefix(a, b, close, i + |open|);
  }

  /** A balanced text followed by a text that cannot continue an opening literal: the spans of each, in order. */
  lemma {:induction false} BetweenConcat(a: string, b: string, open: string, close: string)
    requires open != [] && close != []
    requires Balanced(a, open, close)
    requires b == [] || b[0] !in open[1..]
    ensures Between(a + b, open, close) == Between(a, open, close) + Between(b, open, close)
    ensures Balanced(a + b, open, close) == Balanced(b, open, close)
    decreases |a|
  {
    var i := Find(a, open);
    if i < 0 {
      FreeFront(a, b, open, close);
      BetweenNone(a, open, close);
    } else {
      BalancedCloses(a, open, close, i);
      var j := FindFrom(a, close, i + |open|);
      BetweenConcat(a[j + |close|..], b, open, close);
      ConcatStep(a, b, open, close, i, j);
      ConcatBalancedStep(a, b, open, close, i, j);
    }
  }

  /** A tail made of characters neither literal uses changes neither the spans nor balance. */
  lemma {:induction false} BetweenInertTail(a: string, w: string, open: string, close: string)
    requires open != [] && close != []
    requires forall c :: c in w ==> c !in open && c !in close
    ensures Between(a + w, open, close) == Between(a, open, close)
    ensures Balanced(a + w, open, close) == Balanced(a, open, close)
    decreases |a|
  {
    FindInertTail(a, w, open, 0);
    var i := Find(a, open);
    if i < 0 {
      BetweenNone(a, open, close);
      BetweenNone(a + w, open, close);
    } else {
      FindInertTail(a, w, close, i + |open|);
      var j := FindFrom(a, close, i + |open|);
      if j < 0 {
        BetweenUnclosed(a, open, close, i);
        BetweenUnclosed(a + w, open, close, i);
      } else {
        PrefixStep(a, w, open, close, i, j);
        BetweenInertTail(a[j + |close|..], w, open, close);
      }
    }
  }

  // ---------------------------------------------------------------- building a span

  /** Text without the opening literal's first character, then a literal at the front of `tail`: found there. */
  lemma OpenAfterPlain(w: string, tail: string, open: string)
    requires open != [] && open[0] !in w && open[0] !in open[1..] && StartsWith(tail, open)
    ensures Find(w + tail, open) == |w|
  {
    NoOccMissingHead(w, open);
    FindFromIs(w, open, 0, -1);
    assert tail[0] == open[0];
    FindPastFree(w, tail, open, 0);
    FindFromIs(tail, open, 0, 0);
  }

  /** A body free of the closing literal ends at the closing literal that follows it. */
  lemma CloseAfterBody(front: string, body: string, close: string, rest: string)
    requires close != [] && close[0] !in close[1..] && NoOcc(body, close)
    ensures FindFrom(front + (body + (close + rest)), close, |front|) == |front| + |body|
  {
    FindShift(front, body + (close + rest), close, |front|);
    FindFromIs(body, close, 0, -1);
    FindPastFree(body, close + rest, close, 0);
    FindFromIs(close + rest, close, 0, 0);
  }

  /** Plain text, then one span whose body holds no closing literal, then the rest. */
  lemma PlainStep(w: string, open: string, body: string, close: string, rest: string)
    requires open != [] && close != []
    requires open[0] !in w && open[0] !in open[1..] && close[0] !in close[1..]
    requires NoOcc(body, close)
    ensures Between(w + (open + (body + (close + rest))), open, close) == [body] + Between(rest, open, close)
  {
    var s := w + (open + (body + (close + rest)));
    PlainFinds(w, open, body, close, rest);
    PlainSlices(w, open, body, close, rest);
    BetweenStep(s, open, close, |w|, |w| + |open| + |body|, body, rest);
  }

  lemma PlainFinds(w: string, open: string, body: string, close: string, rest: string)
    requires open != [] && close != []
    requires open[0] !in w && open[0] !in open[1..] && close[0] !in close[1..]
    requires NoOcc(body, close)
    ensures Find(w + (open + (body + (close + rest))), open) == |w|
    ensures FindFrom(w + (open + (body + (close + rest))), close, |w| + |open|) == |w| + |open| + |body|
  {
    var u := body + (close + rest);
    assert (open + u)[..|open|] == open;
    OpenAfterPlain(w, open + u, open);
    assert w + (open + u) == (w + open) + u;
    CloseAfterBody(w + open, body, close, rest);
  }

  lemma PlainSlices(w: string, open: string, body: string, close: string, rest: string)
    ensures (w + (open + (body + (close + rest))))[|w| + |open|..|w| + |open| + |body|] == body
    ensures (w + (open + (body + (close + rest))))[|w| + |open| + |body| + |close|..] == rest
  {
    var u := body + (close + rest);
    var s := w + (open + u);
    assert s == (w + open) + u;
    assert s[|w| + |open|..] == u;
    assert s[|w| + |open|..|w| + |open| + |body|] == u[..|body|] == body;
    assert s[|w| + |open| + |body| + |close|..] == u[|body| + |close|..] == rest;
  }
}
