/**
 * Repository names: the `gallery-` prefix every slide repository carries, the
 * filter that keeps such names in order, and the `gallery-{n:02d}` names the
 * aggregator probes.
 */
module Naming {
  import opened PyStr

  const GalleryPrefix: string := "gallery-"

  predicate IsGalleryName(name: string) {
    StartsWith(name, GalleryPrefix)
  }

  /** The names of `names` that start with `gallery-`, in their order. */
  function GalleryNames(names: seq<string>): (r: seq<string>)
    ensures |r| <= |names|
    ensures forall x :: x in r <==> x in names && IsGalleryName(x)
  {
    if names == [] then []
    else (if IsGalleryName(names[0]) then [names[0]] else []) + GalleryNames(names[1..])
  }

  lemma {:induction false} GalleryNamesConcat(a: seq<string>, b: seq<string>)
    ensures GalleryNames(a + b) == GalleryNames(a) + GalleryNames(b)
  {
    if a != [] {
      assert (a + b)[1..] == a[1..] + b;
      GalleryNamesConcat(a[1..], b);
    } else {
      assert a + b == b;
    }
  }

  // ---------------------------------------------------------------- decimal numbers

  function Digit(d: nat): char
    requires d < 10
  {
    ('0' as int + d) as char
  }

  /** `str(n)`: the decimal digits of `n`, most significant first. */
  function Digits(n: nat): (r: string)
    ensures |r| >= 1
    ensures forall i :: 0 <= i < |r| ==> '0' <= r[i] <= '9'
  {
    if n < 10 then [Digit(n)] else Digits(n / 10) + [Digit(n % 10)]
  }

  /** `f"{n:02d}"`: at least two digits, padded with a leading zero. */
  function Pad2(n: nat): (r: string)
    ensures |r| >= 2
  {
    DigitsLength(n);
    if n < 10 then "0" + Digits(n) else Digits(n)
  }

  /** `f"gallery-{n:02d}"`: the n-th repository the aggregator probes. */
  function RepoName(n: nat): (r: string)
    ensures IsGalleryName(r)
  {
    assert (GalleryPrefix + Pad2(n))[..|GalleryPrefix|] == GalleryPrefix;
    GalleryPrefix + Pad2(n)
  }

  /** The value of a string of decimal digits (the inverse of `Digits`). */
  function Decimal(s: string): nat {
    if s == [] then 0
    else
      var d := s[|s| - 1] as int - '0' as int;
      Decimal(s[..|s| - 1]) * 10 + (if 0 <= d then d else 0)
  }

  /** The number encoded in a `gallery-NN` name. */
  function RepoNumber(name: string): nat {
    if |name| < |GalleryPrefix| then 0 else Decimal(name[|GalleryPrefix|..])
  }

  lemma DigitsLength(n: nat)
    ensures n >= 10 ==> |Digits(n)| >= 2
  {
  }

  lemma {:induction false} DecimalOfDigits(n: nat)
    ensures Decimal(Digits(n)) == n
  {
    if n >= 10 {
      DecimalOfDigits(n / 10);
      var s := Digits(n);
      assert s[..|s| - 1] == Digits(n / 10);
    }
  }

  lemma {:induction false} DecimalLeadingZero(s: string)
    ensures Decimal("0" + s) == Decimal(s)
    decreases |s|
  {
    if s != [] {
      assert ("0" + s)[..|"0" + s| - 1] == "0" + s[..|s| - 1];
      DecimalLeadingZero(s[..|s| - 1]);
    }
  }

  /** Reading back the number from `gallery-{n:02d}` gives `n`, so the names are pairwise distinct. */
  lemma RepoNameRoundTrip(n: nat)
    ensures RepoNumber(RepoName(n)) == n
  {
    assert RepoName(n)[|GalleryPrefix|..] == Pad2(n);
    DecimalOfDigits(n);
    if n < 10 {
      DecimalLeadingZero(Digits(n));
    }
  }

  lemma RepoNameInjective(m: nat, n: nat)
    ensures RepoName(m) == RepoName(n) ==> m == n
  {
    RepoNameRoundTrip(m);
    RepoNameRoundTrip(n);
  }

  /** The two-digit padding stops at 99: the hundredth name is `gallery-100`. */
  lemma HundredthName()
    ensures RepoName(9) == "gallery-09"
    ensures RepoName(100) == "gallery-100"
  {
    assert Digits(100) == Digits(10) + ['0'];
    assert Digits(10) == Digits(1) + ['0'];
  }
}
