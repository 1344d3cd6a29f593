/**
 * One entry of a repository's `gallery.json` and Python's
 * `sorted(gallery, key=lambda x: x["date"], reverse=True)` on such entries.
 * Dates are ISO-8601 strings, compared as Python compares strings: code point
 * by code point, a proper prefix first.
 */
module GalleryRecord {
  import opened Opt

  /** The keys of one `gallery.json` entry; `repo` is set only by the aggregator. */
  datatype Record = Record(
    uid: string,
    title: string,
    description: string,
    url: string,
    date: string,
    blog: bool,
    repo: Option<string>)

  // ---------------------------------------------------------------- string order

  /** `a < b` on Python strings. */
  predicate Below(a: string, b: string) {
    if a == [] then b != []
    else if b == [] then false
    else a[0] < b[0] || (a[0] == b[0] && Below(a[1..], b[1..]))
  }

  lemma {:induction false} BelowIrreflexive(a: string)
    ensures !Below(a, a)
  {
    if a != [] {
      BelowIrreflexive(a[1..]);
    }
  }

  lemma {:induction false} BelowTransitive(a: string, b: string, c: string)
    requires Below(a, b) && Below(b, c)
    ensures Below(a, c)
  {
    if a != [] && b != [] && c != [] && a[0] == b[0] == c[0] {
      BelowTransitive(a[1..], b[1..], c[1..]);
    }
  }

  lemma {:induction false} BelowTotal(a: string, b: string)
    ensures a == b || Below(a, b) || Below(b, a)
  {
    if a != [] && b != [] && a[0] == b[0] {
      BelowTotal(a[1..], b[1..]);
      if a[1..] == b[1..] {
        assert a == [a[0]] + a[1..] && b == [b[0]] + b[1..];
      }
    }
  }

  // ---------------------------------------------------------------- stable sort by date, newest first

  /** Dates never increase along `s`. */
  ghost predicate NewestFirst(s: seq<Record>) {
    forall i, j :: 0 <= i < j < |s| ==> !Below(s[i].date, s[j].date)
  }

  /** The records of `s` dated `d`, in their order. */
  function DatedOn(s: seq<Record>, d: string): seq<Record> {
    if s == [] then []
    else (if s[0].date == d then [s[0]] else []) + DatedOn(s[1..], d)
  }

  /** The records of one date are exactly the records of `s` with that date. */
  lemma {:induction false} DatedOnMembers(s: seq<Record>, d: string, x: Record)
    ensures x in DatedOn(s, d) <==> x in s && x.date == d
  {
    if s != [] {
      DatedOnMembers(s[1..], d, x);
      assert s == [s[0]] + s[1..];
    }
  }

  /** Places `x` before the first record of `s` that is not newer than it. */
  function InsertByDate(x: Record, s: seq<Record>): seq<Record> {
    if s == [] || !Below(x.date, s[0].date) then [x] + s
    else [s[0]] + InsertByDate(x, s[1..])
  }

  /** `sorted(s, key=date, reverse=True)`. */
  function SortByDateDesc(s: seq<Record>): (r: seq<Record>)
    ensures multiset(r) == multiset(s)
  {
    if s == [] then []
    else
      var rest := SortByDateDesc(s[1..]);
      InsertByDatePermutes(s[0], rest);
      assert s == [s[0]] + s[1..];
      InsertByDate(s[0], rest)
  }

  lemma BelowAsymmetric(a: string, b: string)
    requires Below(a, b)
    ensures !Below(b, a)
  {
    if Below(b, a) {
      BelowTransitive(a, b, a);
      BelowIrreflexive(a);
    }
  }

  /** A record no newer than any of `t` may head a newest-first list built on `t`. */
  lemma ConsNewestFirst(y: Record, t: seq<Record>)
    requires NewestFirst(t)
    requires forall r :: r in t ==> !Below(y.date, r.date)
    ensures NewestFirst([y] + t)
  {
    var u := [y] + t;
    forall i, j | 0 <= i < j < |u| ensures !Below(u[i].date, u[j].date) {
      if i == 0 {
        assert u[j] == t[j - 1] && u[j] in t;
      } else {
        assert u[i] == t[i - 1] && u[j] == t[j - 1];
      }
    }
  }

  lemma {:induction false} InsertByDatePermutes(x: Record, s: seq<Record>)
    ensures multiset(InsertByDate(x, s)) == multiset(s) + multiset{x}
  {
    if s != [] && Below(x.date, s[0].date) {
      InsertByDatePermutes(x, s[1..]);
      assert s == [s[0]] + s[1..];
    }
  }

  lemma {:induction false} InsertByDateSorted(x: Record, s: seq<Record>)
    requires NewestFirst(s)
    ensures NewestFirst(InsertByDate(x, s))
  {
    if s != [] && Below(x.date, s[0].date) {
      var t := InsertByDate(x, s[1..]);
      assert NewestFirst(s[1..]);
      InsertByDateSorted(x, s[1..]);
      InsertByDatePermutes(x, s[1..]);
      forall r | r in t ensures !Below(s[0].date, r.date) {
        assert r in multiset(t);
        if r == x {
          BelowAsymmetric(x.date, s[0].date);
        } else {
          assert r in multiset(s[1..]);
          var k :| 0 <= k < |s[1..]| && s[1..][k] == r;
          assert s[k + 1] == r;
        }
      }
      ConsNewestFirst(s[0], t);
    } else {
      forall r | r in s ensures !Below(x.date, r.date) {
        var j :| 0 <= j < |s| && s[j] == r;
        if j > 0 && Below(x.date, r.date) {
          BelowTotal(x.date, s[0].date);
          if Below(s[0].date, x.date) {
            BelowTransitive(s[0].date, x.date, r.date);
          }
        }
      }
      ConsNewestFirst(x, s);
    }
  }

  lemma {:induction false} InsertByDateDatedOn(x: Record, s: seq<Record>, d: string)
    ensures DatedOn(InsertByDate(x, s), d) == (if x.date == d then [x] else []) + DatedOn(s, d)
  {
    var u := InsertByDate(x, s);
    if s != [] && Below(x.date, s[0].date) {
      var t := InsertByDate(x, s[1..]);
      var first := if s[0].date == d then [s[0]] else [];
      var mine := if x.date == d then [x] else [];
      assert u == [s[0]] + t;
      assert u[1..] == t;
      assert DatedOn(u, d) == first + DatedOn(t, d);
      assert DatedOn(s, d) == first + DatedOn(s[1..], d);
      InsertByDateDatedOn(x, s[1..], d);
      if x.date == d {
        BelowIrreflexive(d);
        assert first == [];
      } else {
        assert mine == [];
      }
    } else {
      assert u == [x] + s;
      assert u[1..] == s;
    }
  }

  /** The sorted list holds the same records, newest first. */
  lemma {:induction false} SortByDateDescSorts(s: seq<Record>)
    ensures multiset(SortByDateDesc(s)) == multiset(s)
    ensures NewestFirst(SortByDateDesc(s))
  {
    if s != [] {
      SortByDateDescSorts(s[1..]);
      InsertByDatePermutes(s[0], SortByDateDesc(s[1..]));
      InsertByDateSorted(s[0], SortByDateDesc(s[1..]));
      assert s == [s[0]] + s[1..];
    }
  }

  /** The sort is stable: the records of one date keep their order in `s`. */
  lemma {:induction false} SortByDateDescStable(s: seq<Record>, d: string)
    ensures DatedOn(SortByDateDesc(s), d) == DatedOn(s, d)
  {
    if s != [] {
      SortByDateDescStable(s[1..], d);
      InsertByDateDatedOn(s[0], SortByDateDesc(s[1..]), d);
    }
  }
}
