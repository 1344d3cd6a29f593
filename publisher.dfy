/**
 * The desktop publisher: picking the repository a new slide goes to, adding
 * the slide's record to that repository's `gallery.json` and rendering its
 * `index.html`, and collecting every `gallery-NN` repository into the main
 * gallery. Directory listings, folder sizes, the contents of each
 * `gallery.json`, the slide id and the clock are inputs.
 */
module Publisher {
  import opened Opt
  import opened PyStr
  import opened Naming
  import opened GalleryRecord

  const User: string := "metinciris"

  /** 450 MiB: a repository at or above this size takes no more slides. */
  const MaxRepoSize: nat := 450 * 1024 * 1024

  // ---------------------------------------------------------------- repository selection

  /** The local folders whose names start with `gallery-`, in listing order. */
  method AvailableRepos(folders: seq<string>) returns (repos: seq<string>)
    ensures repos == GalleryNames(folders)
  {
    repos := [];
    var i := 0;
    while i < |folders|
      invariant 0 <= i <= |folders|
      invariant repos == GalleryNames(folders[..i])
    {
      GalleryNamesConcat(folders[..i], [folders[i]]);
      assert folders[..i + 1] == folders[..i] + [folders[i]];
      if StartsWith(folders[i], GalleryPrefix) {
        repos := repos + [folders[i]];
      }
      i := i + 1;
    }
    assert folders[..i] == folders;
  }

  /**
   * The first repository, in list order, whose size is below the limit;
   * `sizes[i]` is the total size of the files of `available[i]`.
   */
  method CurrentRepo(available: seq<string>, sizes: seq<nat>) returns (r: Option<string>)
    requires |sizes| == |available|
    ensures available == [] ==> r == None
    ensures r == None <==> forall i :: 0 <= i < |available| ==> sizes[i] >= MaxRepoSize
    ensures r != None ==>
      exists i :: (0 <= i < |available| && r == Some(available[i])
                   && sizes[i] < MaxRepoSize && forall j :: 0 <= j < i ==> sizes[j] >= MaxRepoSize)
  {
    if available == [] {
      return None;
    }
    var i := 0;
    while i < |available|
      invariant 0 <= i <= |available|
      invariant forall j :: 0 <= j < i ==> sizes[j] >= MaxRepoSize
    {
      if sizes[i] < MaxRepoSize {
        return Some(available[i]);
      }
      i := i + 1;
    }
    return None;
  }

  // ---------------------------------------------------------------- one new slide

  /** The GitHub Pages address of a slide. */
  function PageUrl(repo: string, uid: string): string {
    "https://" + User + ".github.io/" + repo + "/slides/" + uid + "/"
  }

  /** The README written next to a slide. */
  function SlideReadme(uid: string, description: string, repo: string, blogText: string): (r: string)
    ensures StartsWith(r, "# Slayt " + uid + "\n")
    ensures OccursAt(r, "Page Linki: " + PageUrl(repo, uid) + "\n", |ReadmeHead(uid, description)|)
  {
    var head := ReadmeHead(uid, description);
    var link := "Page Linki: " + PageUrl(repo, uid) + "\n";
    var rest := link + ReadmeTail(blogText);
    assert rest[..|link|] == link;
    assert (head + rest)[|head|..|head| + |link|] == rest[..|link|];
    assert head[..|"# Slayt " + uid + "\n"|] == "# Slayt " + uid + "\n";
    assert (head + rest)[..|"# Slayt " + uid + "\n"|] == head[..|"# Slayt " + uid + "\n"|];
    head + rest
  }

  function ReadmeHead(uid: string, description: string): string {
    "# Slayt " + uid + "\n\nAçıklama: " + description + "\n\n"
  }

  function ReadmeTail(blogText: string): string {
    "\nBlog Metni:\n" + blogText + "\n"
  }

  /** The record added to `gallery.json` for a new slide; `now` is the ISO timestamp. */
  function NewRecord(uid: string, description: string, repo: string, now: string, blogText: string, blogImagePath: string): (r: Record)
    ensures r.uid == uid && r.date == now && r.repo == None
    ensures r.title != [] && r.description == description
    ensures description != [] ==> r.title == description
    ensures description == [] ==> r.title == "Slayt " + uid
    ensures r.blog <==> blogText != [] || blogImagePath != []
    ensures r.url == "https://" + User + ".github.io/" + repo + "/slides/" + uid + "/"
  {
    var url := PageUrl(repo, uid);
    Record(uid, if description != [] then description else "Slayt " + uid, description, url, now,
           blogText != [] || blogImagePath != [], None)
  }

  /** The README's page link is the record's address. */
  lemma ReadmeLinksRecord(uid: string, description: string, repo: string, now: string, blogText: string, blogImagePath: string)
    ensures var readme := SlideReadme(uid, description, repo, blogText);
            var link := "Page Linki: " + NewRecord(uid, description, repo, now, blogText, blogImagePath).url + "\n";
            OccursAt(readme, link, |ReadmeHead(uid, description)|)
  {
  }

  /**
   * `gallery.json` after the upload: the stored list (empty when the file is
   * missing) with the new record appended, and the repository's `index.html`.
   */
  method UpdateManifest(stored: Option<seq<Record>>, repo: string, rec: Record) returns (gallery: seq<Record>, html: string)
    ensures var before := if stored.Some? then stored.value else [];
            |gallery| == |before| + 1 && gallery[..|before|] == before && gallery[|before|] == rec
    ensures html == RepoPage(repo, gallery)
  {
    gallery := [];
    if stored.Some? {
      gallery := stored.value;
    }
    gallery := gallery + [rec];
    html := RepoPage(repo, gallery);
  }

  // ---------------------------------------------------------------- rendering

  /** One `<li>` of a gallery page; `depo` is the repository of the "Depo" link. */
  function ItemLi(g: Record, depo: string): (r: string)
    ensures OneLine(g) && '\n' !in depo ==> '\n' !in r
  {
    TemplateHeadOneLine();
    TemplateDepoOneLine();
    TemplateTailOneLine();
    "<li><a href='" + (g.url + ("' target='_blank'>" + (g.title + ("</a> – " + (g.description
      + (" (<a href='https://github.com/" + (User + ("/" + (depo + ("/tree/main/slides/" + (g.uid
      + "' target='_blank'>Depo</a>)</li>")))))))))))
  }

  /** The repository named in a record's `repo` tag. */
  function Tag(g: Record): string {
    if g.repo.Some? then g.repo.value else ""
  }

  /** A record carries its repository tag. */
  predicate IsTagged(g: Record) {
    g.repo.Some?
  }

  /** One line per record: the Depo link goes to `depo` when given, else to the record's own tag. */
  function Lines(rs: seq<Record>, depo: Option<string>): (r: seq<string>)
    ensures |r| == |rs|
    ensures forall i :: 0 <= i < |rs| ==> r[i] == ItemLi(rs[i], if depo.Some? then depo.value else Tag(rs[i]))
  {
    if rs == [] then []
    else [ItemLi(rs[0], if depo.Some? then depo.value else Tag(rs[0]))] + Lines(rs[1..], depo)
  }

  /** The `<li>` items of a repository's page, newest first. */
  function RepoItems(gallery: seq<Record>, repo: string): string {
    Join("\n", Lines(SortByDateDesc(gallery), Some(repo)))
  }

  /** The `<li>` items of the main gallery page, newest first, each linking to its own repository. */
  function AllItems(gallery: seq<Record>): string
    requires forall g :: g in gallery ==> IsTagged(g)
  {
    Join("\n", Lines(SortByDateDesc(gallery), None))
  }

  const RepoPageHead: string :=
    "<!DOCTYPE html>\n<html lang=\"tr\">\n<head>\n    <meta charset=\"UTF-8\">\n"
    + "    <title>Sanal Mikroskop Galerisi</title>\n</head>\n<body>\n"
    + "    <h1>Sanal Mikroskop Slaytları</h1>\n    <ul>"

  const MainPageHead: string :=
    "<!DOCTYPE html>\n<html lang=\"tr\">\n<head>\n    <meta charset=\"UTF-8\">\n"
    + "    <title>Ana Sanal Mikroskop Galerisi</title>\n</head>\n<body>\n"
    + "    <h1>Tüm Sanal Mikroskop Slaytları</h1>\n    <ul>"

  const PageTail: string := "</ul>\n</body>\n</html>"

  /** A repository's `index.html`. */
  function RepoPage(repo: string, gallery: seq<Record>): (r: string)
    ensures StartsWith(r, RepoPageHead)
    ensures |RepoPageHead| + |PageTail| <= |r| && r[|r| - |PageTail|..] == PageTail
    ensures gallery != [] && (forall g :: g in gallery ==> OneLine(g)) && '\n' !in repo ==>
              Split(r[|RepoPageHead|..|r| - |PageTail|], "\n") == Lines(SortByDateDesc(gallery), Some(repo))
  {
    var items := RepoItems(gallery, repo);
    PageParts(RepoPageHead, items, PageTail);
    if gallery != [] && (forall g :: g in gallery ==> OneLine(g)) && '\n' !in repo then
      PageLines(gallery, Some(repo));
      RepoPageHead + items + PageTail
    else RepoPageHead + items + PageTail
  }

  /** A page cut back into its head, its items and its tail. */
  lemma PageParts(head: string, items: string, tail: string)
    ensures var r := head + items + tail;
            && StartsWith(r, head) && |head| + |tail| <= |r| && r[|r| - |tail|..] == tail
            && r[|head|..|r| - |tail|] == items
  {
    var r := head + items + tail;
    assert r[..|head|] == head;
    assert r[|r| - |tail|..] == tail;
    assert r[|head|..|r| - |tail|] == items;
  }

  /** The main gallery's `index.html`. */
  function MainPage(gallery: seq<Record>): (r: string)
    requires forall g :: g in gallery ==> IsTagged(g)
    ensures StartsWith(r, MainPageHead)
    ensures |MainPageHead| + |PageTail| <= |r| && r[|r| - |PageTail|..] == PageTail
    ensures gallery != [] && (forall g :: g in gallery ==> OneLine(g)) ==>
              Split(r[|MainPageHead|..|r| - |PageTail|], "\n") == Lines(SortByDateDesc(gallery), None)
  {
    var items := AllItems(gallery);
    PageParts(MainPageHead, items, PageTail);
    if gallery != [] && (forall g :: g in gallery ==> OneLine(g)) then
      PageLines(gallery, None);
      MainPageHead + items + PageTail
    else MainPageHead + items + PageTail
  }

  lemma SortedKeepsTags(gallery: seq<Record>)
    requires forall g :: g in gallery ==> IsTagged(g)
    ensures forall g :: g in SortByDateDesc(gallery) ==> IsTagged(g)
  {
    SortByDateDescSorts(gallery);
    forall g | g in SortByDateDesc(gallery) ensures IsTagged(g) {
      assert g in multiset(SortByDateDesc(gallery));
    }
  }

  /** No field that goes into a page line holds a line break. */
  predicate OneLine(g: Record) {
    '\n' !in g.url && '\n' !in g.title && '\n' !in g.description && '\n' !in g.uid
    && (g.repo.Some? ==> '\n' !in g.repo.value)
  }

  /** The fixed text of an item has no line break. */
  lemma TemplateHeadOneLine()
    ensures '\n' !in "<li><a href='" && '\n' !in "' target='_blank'>" && '\n' !in "</a> – "
  {
  }

  lemma TemplateDepoOneLine()
    ensures '\n' !in " (<a href='https://github.com/" && '\n' !in User && '\n' !in "/"
  {
  }

  lemma TemplateTailOneLine()
    ensures '\n' !in "/tree/main/slides/" && '\n' !in "' target='_blank'>Depo</a>)</li>"
  {
  }

  /**
   * The items of a page are one line per record: splitting them at line
   * breaks gives the records' lines in newest-first order, holding every
   * record once, with records of equal date in their stored order.
   */
  lemma {:induction false} PageLines(gallery: seq<Record>, depo: Option<string>)
    requires gallery != []
    requires forall g :: g in gallery ==> OneLine(g)
    requires depo.Some? ==> '\n' !in depo.value
    requires depo.None? ==> forall g :: g in gallery ==> IsTagged(g)
    ensures var sorted := SortByDateDesc(gallery);
            (depo.None? ==> forall g :: g in sorted ==> IsTagged(g))
            && Split(Join("\n", Lines(sorted, depo)), "\n") == Lines(sorted, depo)
            && multiset(sorted) == multiset(gallery)
            && NewestFirst(sorted)
            && forall d :: DatedOn(sorted, d) == DatedOn(gallery, d)
  {
    var sorted := SortByDateDesc(gallery);
    SortByDateDescSorts(gallery);
    forall d ensures DatedOn(sorted, d) == DatedOn(gallery, d) {
      SortByDateDescStable(gallery, d);
    }
    forall g | g in sorted ensures g in gallery {
      assert g in multiset(sorted);
    }
    var lines := Lines(sorted, depo);
    forall k | 0 <= k < |lines| ensures '\n' !in lines[k] {
      assert sorted[k] in sorted;
    }
    assert |sorted| == |gallery| by { assert |multiset(sorted)| == |multiset(gallery)|; }
    SplitJoin('\n', lines);
  }

  // ---------------------------------------------------------------- the main gallery

  /** A repository directory that holds a `gallery.json`. */
  predicate HasGallery(store: map<string, Option<seq<Record>>>, name: string) {
    name in store && store[name].Some?
  }

  /** A repository's records tagged with its name: the tag changes, nothing else does. */
  function Tagged(rs: seq<Record>, name: string): (r: seq<Record>)
    ensures |r| == |rs|
    ensures forall g :: g in r ==> g.repo == Some(name)
    ensures forall i :: 0 <= i < |rs| ==> r[i].(repo := rs[i].repo) == rs[i]
  {
    seq(|rs|, i requires 0 <= i < |rs| => rs[i].(repo := Some(name)))
  }

  /** What the aggregator collects from `gallery-01` … `gallery-{k:02d}`, in that order. */
  function Collected(store: map<string, Option<seq<Record>>>, k: nat): (r: seq<Record>)
    requires forall i :: 1 <= i <= k ==> HasGallery(store, RepoName(i))
    ensures forall g :: g in r ==> IsTagged(g) && IsGalleryName(Tag(g))
  {
    if k == 0 then []
    else assert HasGallery(store, RepoName(k)); Collected(store, k - 1) + Tagged(store[RepoName(k)].value, RepoName(k))
  }

  /** Tags every record of `items` with `name`, in place. */
  method TagInPlace(items: array<Record>, name: string)
    modifies items
    ensures items[..] == Tagged(old(items[..]), name)
  {
    var j := 0;
    while j < items.Length
      invariant 0 <= j <= items.Length
      invariant forall m :: 0 <= m < j ==> items[m] == old(items[m]).(repo := Some(name))
      invariant forall m :: j <= m < items.Length ==> items[m] == old(items[m])
    {
      items[j] := items[j].(repo := Some(name));
      j := j + 1;
    }
  }

  /**
   * Probes `gallery-01`, `gallery-02`, … and stops at the first one without a
   * `gallery.json`; `found` repositories were read.
   */
  method Aggregate(store: map<string, Option<seq<Record>>>) returns (gallery: seq<Record>, found: nat)
    ensures forall i :: 1 <= i <= found ==> HasGallery(store, RepoName(i))
    ensures !HasGallery(store, RepoName(found + 1))
    ensures gallery == Collected(store, found)
  {
    gallery := [];
    var count := 1;
    ghost var probed: set<string> := {};
    while HasGallery(store, RepoName(count))
      invariant count >= 1
      invariant forall i :: 1 <= i < count ==> HasGallery(store, RepoName(i))
      invariant probed == Probed(count)
      invariant probed <= store.Keys
      invariant gallery == Collected(store, count - 1)
      decreases store.Keys - probed
    {
      var name := RepoName(count);
      var stored := store[name].value;
      var items := new Record[|stored|](m requires 0 <= m < |stored| => stored[m]);
      assert items[..] == stored;
      TagInPlace(items, name);
      gallery := gallery + items[..];
      ProbeNext(count);
      probed := probed + {name};
      count := count + 1;
    }
    found := count - 1;
  }

  /** The names probed before `gallery-{count:02d}` do not include it. */
  lemma ProbeNext(count: nat)
    requires count >= 1
    ensures RepoName(count) !in Probed(count)
    ensures Probed(count + 1) == Probed(count) + {RepoName(count)}
  {
    forall i | 1 <= i < count ensures RepoName(i) != RepoName(count) {
      RepoNameInjective(i, count);
    }
    forall x | x in Probed(count + 1) ensures x in Probed(count) + {RepoName(count)} {
      var i :| 1 <= i < count + 1 && x == RepoName(i);
      if i < count {
        assert x in Probed(count);
      }
    }
    forall x | x in Probed(count) ensures x in Probed(count + 1) {
      var i :| 1 <= i < count && x == RepoName(i);
    }
    assert RepoName(count) in Probed(count + 1);
  }

  /** The names `gallery-01` … `gallery-{count - 1:02d}`. */
  ghost function Probed(count: nat): set<string> {
    set i | 1 <= i < count :: RepoName(i)
  }

  /** `g` is record `m` of repository `gallery-{i:02d}`, tagged with that repository's name. */
  predicate CameFrom(store: map<string, Option<seq<Record>>>, g: Record, i: nat, m: nat) {
    HasGallery(store, RepoName(i)) && m < |store[RepoName(i)].value|
    && g == store[RepoName(i)].value[m].(repo := Some(RepoName(i)))
  }

  /** Every collected record carries the name of the repository it came from, and is that repository's record otherwise unchanged. */
  lemma {:induction false} CollectedOrigin(store: map<string, Option<seq<Record>>>, k: nat, j: nat)
    requires forall i :: 1 <= i <= k ==> HasGallery(store, RepoName(i))
    requires j < |Collected(store, k)|
    ensures var g := Collected(store, k)[j];
            exists i, m :: 1 <= i <= k && g.repo == Some(RepoName(i)) && CameFrom(store, g, i, m)
  {
    var before := Collected(store, k - 1);
    var g := Collected(store, k)[j];
    CollectedAt(store, k, j);
    if j < |before| {
      CollectedOrigin(store, k - 1, j);
      OriginWidens(store, before[j], k);
    } else {
      var m := j - |before|;
      assert 1 <= k <= k && g.repo == Some(RepoName(k)) && CameFrom(store, g, k, m);
    }
  }

  /** A record that came from one of the first `k - 1` repositories came from one of the first `k`. */
  lemma OriginWidens(store: map<string, Option<seq<Record>>>, g: Record, k: nat)
    requires exists i, m :: 1 <= i <= k - 1 && g.repo == Some(RepoName(i)) && CameFrom(store, g, i, m)
    ensures exists i, m :: 1 <= i <= k && g.repo == Some(RepoName(i)) && CameFrom(store, g, i, m)
  {
    var i, m :| 1 <= i <= k - 1 && g.repo == Some(RepoName(i)) && CameFrom(store, g, i, m);
    assert 1 <= i <= k;
  }

  /** The record at `j` comes from the earlier repositories, or is the last repository's record at the rest of the index, tagged. */
  lemma CollectedAt(store: map<string, Option<seq<Record>>>, k: nat, j: nat)
    requires forall i :: 1 <= i <= k ==> HasGallery(store, RepoName(i))
    requires j < |Collected(store, k)|
    ensures k > 0
    ensures var before := Collected(store, k - 1);
            if j < |before| then Collected(store, k)[j] == before[j]
            else (j - |before| < |store[RepoName(k)].value|
                  && Collected(store, k)[j] == store[RepoName(k)].value[j - |before|].(repo := Some(RepoName(k))))
  {
    var before := Collected(store, k - 1);
    assert HasGallery(store, RepoName(k));
    var rs := store[RepoName(k)].value;
    assert Collected(store, k) == before + Tagged(rs, RepoName(k));
    if j >= |before| {
      assert Collected(store, k)[j] == Tagged(rs, RepoName(k))[j - |before|];
    }
  }

  /** The main gallery's `gallery.json` and `index.html`. */
  method UpdateMainGallery(store: map<string, Option<seq<Record>>>) returns (gallery: seq<Record>, html: string)
    ensures exists k: nat :: ((forall i :: 1 <= i <= k ==> HasGallery(store, RepoName(i)))
                              && !HasGallery(store, RepoName(k + 1)) && gallery == Collected(store, k))
    ensures forall g :: g in gallery ==> IsTagged(g) && IsGalleryName(Tag(g))
    ensures html == MainPage(gallery)
  {
    var found;
    gallery, found := Aggregate(store);
    html := MainPage(gallery);
  }
}
