/**
 * The list logic of the gallery editor app (`gallery_update.py`): the list
 * region of `index.html` found by a fixed 18-character offset after
 * `<ul id="sortable">`, the editor view of its items, the repositories the
 * page already links to, one new `<li>` per new slide repository, the splice
 * of those items into the page, and the Markdown list of the README it
 * publishes. The GitHub listing, the README texts of the repositories and
 * the thumbnails that answer are inputs.
 */
module GalleryEditor {
  import opened Opt
  import opened PyStr
  import opened Naming
  import opened Markup

  const SortableOpen: string := "<ul id=\"sortable\">"
  /** The offset the list text starts at, past the marker's position. */
  const MarkerWidth: int := 18

  /** The fixed offset is the length of the marker. */
  lemma MarkerWidthIsMarker()
    ensures |SortableOpen| == MarkerWidth
  {
  }

  // ---------------------------------------------------------------- the list region

  /** `content.find('<ul id="sortable">')`. */
  function ListStart(content: string): int {
    Find(content, SortableOpen)
  }

  /** `content.find('</ul>')`: the first list close anywhere in the page. */
  function ListEnd(content: string): int {
    Find(content, UlClose)
  }

  /** `content[start+18:end]` when both markers are found, else nothing. */
  function ListRegion(content: string): (r: Option<string>)
    ensures r.None? <==> NoOcc(content, SortableOpen) || NoOcc(content, UlClose)
    ensures r.Some? ==> NoOcc(r.value, UlClose)
  {
    NoOccFind(content, SortableOpen);
    NoOccFind(content, UlClose);
    var start, end := ListStart(content), ListEnd(content);
    if start != -1 && end != -1 then
      RegionFree(content, start + MarkerWidth, end);
      Some(Slice(content, start + MarkerWidth, end))
    else None
  }

  /** No list close starts inside the text up to the first one. */
  lemma RegionFree(content: string, from: int, end: int)
    requires end == Find(content, UlClose) && end != -1
    ensures NoOcc(Slice(content, from, end), UlClose)
  {
    FreeBeforeFind(content, UlClose, 0, end);
    var i := SliceBound(from, |content|);
    if i < end {
      NoOccSlice(content[0..end], UlClose, i, end);
      assert content[0..end][i..end] == content[i..end];
    }
  }

  /**
   * The region is the text from the end of the first marker to the first
   * list close; it is empty when that close comes earlier, and missing when
   * either marker is.
   */
  lemma RegionBetweenMarkers(content: string)
    ensures ListRegion(content).None? <==> NoOcc(content, SortableOpen) || NoOcc(content, UlClose)
    ensures ListRegion(content).Some? && ListStart(content) + MarkerWidth <= ListEnd(content) ==>
              && OccursAt(content, SortableOpen, ListStart(content))
              && (forall k :: k < ListStart(content) ==> !OccursAt(content, SortableOpen, k))
              && OccursAt(content, UlClose, ListEnd(content))
              && ListRegion(content).value == content[ListStart(content) + |SortableOpen|..ListEnd(content)]
              && NoOcc(ListRegion(content).value, UlClose)
    ensures ListRegion(content).Some? && ListStart(content) + MarkerWidth > ListEnd(content) ==>
              ListRegion(content).value == []
  {
    FindFromFirst(content, SortableOpen, 0);
    FindFromFirst(content, UlClose, 0);
  }

  // ---------------------------------------------------------------- the editor view

  /** The `slides_html` the editor route renders. */
  function EditorView(content: string): string {
    match ListRegion(content)
    case None => ""
    case Some(region) => BoxedView(region)
  }

  /**
   * The editor shows nothing without both markers; otherwise reading its
   * view back with the same item scanner gives one text box per item of
   * the list region, holding that item stripped.
   */
  lemma EditorViewItems(content: string)
    ensures ListRegion(content).None? ==> EditorView(content) == ""
    ensures ListRegion(content).Some? ==> LiItems(EditorView(content)) == Boxed(LiItems(ListRegion(content).value))
  {
    if ListRegion(content).Some? {
      BoxedViewItems(ListRegion(content).value);
    }
  }

  // ---------------------------------------------------------------- links already on the page

  /** `existing_links`: the repositories the items of the list region link to. */
  function ExistingLinks(content: string, user: string): set<string> {
    match ListRegion(content)
    case None => {}
    case Some(region) => LinkSet(LiElements(region), user)
  }

  // ---------------------------------------------------------------- one new slide

  /** The later README lines that go into the description, each stripped. */
  function KeptLines(lines: seq<string>): seq<string> {
    FilterMap(lines, Kept, Strip)
  }

  /** A text is a description line exactly when it is a kept line, stripped. */
  lemma KeptLinesMembers(lines: seq<string>, x: string)
    ensures x in KeptLines(lines) <==> exists j :: 0 <= j < |lines| && Kept(lines[j]) && Strip(lines[j]) == x
  {
    FilterMapMembers(lines, Kept, Strip, x);
  }

  /** A kept line, stripped, is non-empty and starts and ends with a non-space. */
  lemma KeptIsTrimmed(line: string)
    requires Kept(line)
    ensures Trimmed(Strip(line))
  {
  }

  /** Each description line is non-empty and starts and ends with a non-space. */
  lemma KeptLinesTrimmed(lines: seq<string>)
    ensures forall k :: 0 <= k < |KeptLines(lines)| ==> Trimmed(KeptLines(lines)[k])
  {
    forall k | 0 <= k < |lines| && Kept(lines[k]) ensures Trimmed(Strip(lines[k])) {
      KeptIsTrimmed(lines[k]);
    }
    FilterMapAll(lines, Kept, Strip, Trimmed);
  }

  /** The loop that fills `description` from the lines after the first. */
  method CollectDescription(lines: seq<string>) returns (description: seq<string>)
    ensures description == KeptLines(Later(lines))
  {
    description := CollectKept(Later(lines));
  }

  method CollectKept(later: seq<string>) returns (description: seq<string>)
    ensures description == KeptLines(later)
  {
    description := [];
    var i := 0;
    while i < |later|
      invariant 0 <= i <= |later|
      invariant description == KeptLines(later[..i])
    {
      FilterMapPrefix(later, i, Kept, Strip);
      if Kept(later[i]) {
        description := description + [Strip(later[i])];
      }
      i := i + 1;
    }
    assert later[..i] == later;
  }

  /** The slide name: the first README line without its heading marks, else the repository's name. */
  function Title(readme: string, repo: string): string {
    SlideName(Split(readme, "\n"), repo)
  }

  /** `' '.join(description)`, or `No description` when no line was kept. */
  function Description(readme: string): (r: string)
    ensures r != [] && Trimmed(r) && '\n' !in r
  {
    var lines := Split(readme, "\n");
    var kept := KeptLines(Later(lines));
    if kept == [] then NoDescriptionTrimmed(); "No description"
    else
      SplitPiecesFree(readme, "\n");
      KeptLinesBreakFree(lines);
      KeptLinesTrimmed(Later(lines));
      JoinTrimmed(kept);
      Join(" ", kept)
  }

  predicate NoBreak(s: string) {
    '\n' !in s
  }

  lemma NoDescriptionTrimmed()
    ensures Trimmed("No description") && '\n' !in "No description"
  {
  }

  /** The lines of a text after its first, stripped, have no line break. */
  lemma KeptLinesBreakFree(lines: seq<string>)
    requires AllFree(lines, "\n")
    ensures forall k :: 0 <= k < |KeptLines(Later(lines))| ==> '\n' !in KeptLines(Later(lines))[k]
  {
    var later := Later(lines);
    forall k | 0 <= k < |later| && Kept(later[k]) ensures '\n' !in Strip(later[k]) {
      assert later[k] == lines[k + 1];
      NoOccChar(lines[k + 1], '\n');
    }
    FilterMapAll(later, Kept, Strip, NoBreak);
  }

  /** Trimmed pieces without line breaks join with blanks into a trimmed line. */
  lemma JoinTrimmed(kept: seq<string>)
    requires kept != []
    requires forall k :: 0 <= k < |kept| ==> Trimmed(kept[k]) && '\n' !in kept[k]
    ensures Join(" ", kept) != [] && Trimmed(Join(" ", kept)) && '\n' !in Join(" ", kept)
  {
    JoinFree(" ", kept, '\n');
    JoinLast(" ", kept);
    JoinFirst(" ", kept);
  }

  /** The thumbnail image, when the repository answers for `thumbnail.jpg`. */
  function Thumbnail(user: string, repo: string, exists_: bool): string {
    if exists_ then " " + ("<img src=\"" + ((PagesLink(user, repo) + "thumbnail.jpg") + ThumbAttributes)) else ""
  }

  const ThumbAttributes: string := "\" alt=\"Thumbnail\" width=\"100\">"

  /** `<li><a href="{pages_link}">{slide_name}</a> - {description_text}{thumbnail}</li>`. */
  function EntryText(user: string, repo: string, title: string, desc: string, thumb: string): (r: string)
    ensures r == LiOpen + BodyText(user, repo, title, desc, thumb) + LiClose
    ensures Plain(user) && repo != [] && '/' !in repo ==> LinkOf(r, user) == Some(repo)
  {
    EntryOpenSplit();
    EntryRegroup(LiOpen, "<a href=\"", PagesLink(user, repo), "\">", title, "</a> - ", desc, thumb, LiClose);
    BodyLink(user, repo, title, desc, thumb);
    var rest := title + ("</a> - " + (desc + thumb));
    TagAssoc(LiOpen, LinkPrefix(user), repo, "/\">", rest, LiClose);
    if Plain(user) && repo != [] && '/' !in repo then
      LinkOfTagged(user, repo, rest + LiClose);
      "<li><a href=\"" + PagesLink(user, repo) + "\">" + title + "</a> - " + desc + thumb + "</li>"
    else
      "<li><a href=\"" + PagesLink(user, repo) + "\">" + title + "</a> - " + desc + thumb + "</li>"
  }

  /** The text of such an entry between its `<li>` tags. */
  function BodyText(user: string, repo: string, title: string, desc: string, thumb: string): (r: string)
    ensures StartsWith(r, LinkPrefix(user) + repo + "/\">" + title + "</a> - ")
    ensures |desc + thumb| <= |r| && r[|r| - |desc + thumb|..] == desc + thumb
  {
    LinkSplit();
    var r := "<a href=\"" + (PagesLink(user, repo) + ("\">" + (title + ("</a> - " + (desc + thumb)))));
    var head := LinkPrefix(user) + repo + "/\">" + title + "</a> - ";
    assert r == head + (desc + thumb);
    assert r[..|head|] == head;
    r
  }

  /** The entry of a repository with README `readme`. */
  function Entry(user: string, repo: string, readme: string, thumb: bool): (r: string)
    ensures r == LiOpen + EntryBody(user, repo, readme, thumb) + LiClose
    ensures Plain(user) && repo != [] && '/' !in repo ==> LinkOf(r, user) == Some(repo)
  {
    EntryText(user, repo, Title(readme, repo), Description(readme), Thumbnail(user, repo, thumb))
  }

  /** The text of that entry between its `<li>` tags. */
  function EntryBody(user: string, repo: string, readme: string, thumb: bool): string {
    BodyText(user, repo, Title(readme, repo), Description(readme), Thumbnail(user, repo, thumb))
  }

  lemma EntryRegroup(l: string, a: string, pl: string, m: string, ti: string, c: string, d: string, th: string, lc: string)
    ensures (l + a) + pl + m + ti + c + d + th + lc == l + (a + (pl + (m + (ti + (c + (d + th)))))) + lc
  {
  }

  lemma EntryOpenSplit()
    ensures "<li><a href=\"" == LiOpen + "<a href=\""
  {
  }

  lemma BodyLink(user: string, repo: string, title: string, desc: string, thumb: string)
    ensures BodyText(user, repo, title, desc, thumb) == LinkPrefix(user) + (repo + ("/\">" + (title + ("</a> - " + (desc + thumb)))))
  {
    LinkSplit();
  }

  lemma TagAssoc(a: string, b: string, c: string, d: string, e: string, f: string)
    ensures a + (b + (c + (d + e))) + f == a + (b + (c + (d + (e + f))))
  {
  }

  lemma LinkSplit()
    ensures "<a href=\"" + "https://" == "<a href=\"https://"
    ensures "/" + "\">" == "/\">"
  {
  }

  /** The loop body that builds one entry from its README. */
  method BuildEntry(user: string, repo: string, readme: string, thumb: bool) returns (entry: string)
    ensures entry == Entry(user, repo, readme, thumb)
  {
    var lines := Split(readme, "\n");
    var slideName := SlideName(lines, repo);
    var description := CollectDescription(lines);
    var descriptionText := if description != [] then Join(" ", description) else "No description";
    var pagesLink := "https://" + user + ".github.io/" + repo + "/";
    var thumbUrl := pagesLink + "thumbnail.jpg";
    var thumbnail := if thumb then " " + ("<img src=\"" + (thumbUrl + ThumbAttributes)) else "";
    entry := "<li><a href=\"" + pagesLink + "\">" + slideName + "</a> - " + descriptionText + thumbnail + "</li>";
  }

  // ---------------------------------------------------------------- the new slides

  /** The entries of `names`, in their order. */
  function NewSlides(user: string, names: seq<string>, readmes: map<string, string>, thumbs: set<string>): seq<string>
    requires forall x :: x in names ==> x in readmes
  {
    seq(|names|, k requires 0 <= k < |names| => Entry(user, names[k], readmes[names[k]], names[k] in thumbs))
  }

  /** The item texts of those entries. */
  function NewBodies(user: string, names: seq<string>, readmes: map<string, string>, thumbs: set<string>): seq<string>
    requires forall x :: x in names ==> x in readmes
  {
    seq(|names|, k requires 0 <= k < |names| => EntryBody(user, names[k], readmes[names[k]], names[k] in thumbs))
  }

  /** The item texts after the first are those of the remaining names. */
  lemma NewBodiesTail(user: string, names: seq<string>, readmes: map<string, string>, thumbs: set<string>)
    requires forall x :: x in names ==> x in readmes
    requires names != []
    ensures NewBodies(user, names, readmes, thumbs)[1..] == NewBodies(user, names[1..], readmes, thumbs)
  {
    var a, b := NewBodies(user, names, readmes, thumbs)[1..], NewBodies(user, names[1..], readmes, thumbs);
    forall k | 0 <= k < |a| ensures a[k] == b[k] {
      assert names[1..][k] == names[k + 1];
    }
  }

  lemma NewSlidesWrap(user: string, names: seq<string>, readmes: map<string, string>, thumbs: set<string>)
    requires forall x :: x in names ==> x in readmes
    ensures NewSlides(user, names, readmes, thumbs) == Wrap(NewBodies(user, names, readmes, thumbs))
  {
  }

  lemma NewSlidesSnoc(user: string, names: seq<string>, x: string, readmes: map<string, string>, thumbs: set<string>)
    requires forall y :: y in names ==> y in readmes
    requires x in readmes
    ensures NewSlides(user, names + [x], readmes, thumbs) == NewSlides(user, names, readmes, thumbs) + [Entry(user, x, readmes[x], x in thumbs)]
  {
  }

  /** One more repository of the listing adds its entry exactly when it is fresh. */
  lemma CollectStep(user: string, repos: seq<string>, i: nat, existing: set<string>, readmes: map<string, string>, thumbs: set<string>)
    requires i < |repos|
    ensures var x, before := repos[i], NewNames(repos[..i], existing, readmes);
            Fresh(x, existing, readmes) ==>
              NewSlides(user, NewNames(repos[..i + 1], existing, readmes), readmes, thumbs)
              == NewSlides(user, before, readmes, thumbs) + [Entry(user, x, readmes[x], x in thumbs)]
    ensures !Fresh(repos[i], existing, readmes) ==> NewNames(repos[..i + 1], existing, readmes) == NewNames(repos[..i], existing, readmes)
  {
    assert repos[..i + 1] == repos[..i] + [repos[i]];
    NewNamesSnoc(repos[..i], repos[i], existing, readmes);
    if Fresh(repos[i], existing, readmes) {
      NewSlidesSnoc(user, NewNames(repos[..i], existing, readmes), repos[i], readmes, thumbs);
    }
  }

  /** The loop that fills `new_slides`, in the order of the listing. */
  method CollectNewSlides(user: string, repos: seq<string>, existing: set<string>, readmes: map<string, string>, thumbs: set<string>)
    returns (slides: seq<string>)
    ensures slides == NewSlides(user, NewNames(repos, existing, readmes), readmes, thumbs)
  {
    slides := [];
    var i := 0;
    while i < |repos|
      invariant 0 <= i <= |repos|
      invariant slides == NewSlides(user, NewNames(repos[..i], existing, readmes), readmes, thumbs)
    {
      var name := repos[i];
      CollectStep(user, repos, i, existing, readmes, thumbs);
      if name !in existing && name in readmes && Strip(readmes[name]) != [] {
        var entry := BuildEntry(user, name, readmes[name], name in thumbs);
        slides := slides + [entry];
      }
      i := i + 1;
    }
    assert repos[..i] == repos;
  }

  // ---------------------------------------------------------------- the README's Markdown list

  const AnchorOpen: string := "<a href=\""
  const AnchorMid: string := "\">"
  const AnchorClose: string := "</a> - "
  const ImgOpen: string := "<img"

  /** What one match of the README pattern yields: link, name, and whether the thumbnail group took part. */
  datatype Bullet = Bullet(link: string, name: string, thumb: bool)

  /** Position `q` was found and lies on the line that starts the match at `p` (`.` does not cross a line break). */
  predicate OnLine(s: string, p: nat, q: int) {
    var e := FindFrom(s, "\n", p);
    q >= 0 && (e < 0 || q < e)
  }

  /**
   * The pattern can match at `p` with link `link` and name `name`: the text
   * `<a href="link">name</a> - ` stands there, and neither group crosses a
   * line break (`.` does not match one).
   */
  ghost predicate LinkMatch(s: string, p: int, link: string, name: string) {
    OccursAt(s, AnchorOpen + (link + (AnchorMid + (name + AnchorClose))), p) && '\n' !in link && '\n' !in name
  }

  /** Such a match where both lazy groups are as short as they can be. */
  ghost predicate FirstLinkMatch(s: string, p: int, link: string, name: string) {
    && LinkMatch(s, p, link, name)
    && (forall k :: p + |AnchorOpen| <= k < p + |AnchorOpen| + |link| ==> !OccursAt(s, AnchorMid, k))
    && (forall k :: p + |AnchorOpen| + |link| + |AnchorMid| <= k < p + |AnchorOpen| + |link| + |AnchorMid| + |name| ==>
          !OccursAt(s, AnchorClose, k))
  }

  /** `b` is what the pattern yields at `p`: its groups are the shortest, and a thumbnail group starts with `<img`. */
  ghost predicate Found(s: string, p: int, b: Bullet) {
    && FirstLinkMatch(s, p, b.link, b.name)
    && (b.thumb ==> OccursAt(s, ImgOpen, p + |AnchorOpen| + |b.link| + |AnchorMid| + |b.name| + |AnchorClose|))
  }

  /** The pattern matches nowhere in `[from, to)`. */
  ghost predicate NoLinkMatch(s: string, from: int, to: int) {
    forall k, link, name :: from <= k < to ==> !LinkMatch(s, k, link, name)
  }

  /**
   * `<a href="(.*?)">(.*?)</a> - (.*?)(<img.*?>)?` tried at `p`, where
   * `<a href="` occurs. Each lazy group stops at the first occurrence of
   * what follows it on the same line (a later `">` would leave less room
   * for `</a> - `, so it never helps); the description group, followed by
   * nothing but an optional group, matches the empty text, and the
   * thumbnail group takes part when `<img` and a `>` follow on the line.
   */
  function ReadmeMatchAt(s: string, p: nat): (r: Option<Bullet>)
    requires OccursAt(s, AnchorOpen, p)
    ensures r.Some? ==> Found(s, p, r.value)
  {
    var q := FindFrom(s, AnchorMid, p + |AnchorOpen|);
    if !OnLine(s, p, q) then None
    else
      var r := FindFrom(s, AnchorClose, q + |AnchorMid|);
      if !OnLine(s, p, r) then None
      else
        GroupsMatch(s, p, q, r);
        var at := r + |AnchorClose|;
        var img := StartsWith(s[at..], ImgOpen) && OnLine(s, p, FindFrom(s, ">", at + |ImgOpen|));
        assert img ==> s[at..][..|ImgOpen|] == s[at..at + |ImgOpen|];
        Some(Bullet(s[p + |AnchorOpen|..q], s[q + |AnchorMid|..r], img))
  }

  /** The groups `ReadmeMatchAt` cuts are the shortest that match. */
  lemma GroupsMatch(s: string, p: nat, q: int, r: int)
    requires OccursAt(s, AnchorOpen, p)
    requires q == FindFrom(s, AnchorMid, p + |AnchorOpen|) && OnLine(s, p, q)
    requires r == FindFrom(s, AnchorClose, q + |AnchorMid|) && OnLine(s, p, r)
    ensures FirstLinkMatch(s, p, s[p + |AnchorOpen|..q], s[q + |AnchorMid|..r])
  {
    FoundFirst(s, AnchorMid, p + |AnchorOpen|, q);
    FoundFirst(s, AnchorClose, q + |AnchorMid|, r);
    var link, name := s[p + |AnchorOpen|..q], s[q + |AnchorMid|..r];
    GroupsOccur(s, p, q, r);
    LineFree(s, p, p + |AnchorOpen|, q);
    LineFree(s, p, q + |AnchorMid|, r);
    assert LinkMatch(s, p, link, name);
  }

  /** The text from `p` to the end of `</a> - ` at `r` is the anchor with the two groups filled in. */
  lemma GroupsOccur(s: string, p: nat, q: nat, r: nat)
    requires OccursAt(s, AnchorOpen, p) && OccursAt(s, AnchorMid, q) && OccursAt(s, AnchorClose, r)
    requires p + |AnchorOpen| <= q && q + |AnchorMid| <= r
    ensures OccursAt(s, AnchorOpen + (s[p + |AnchorOpen|..q] + (AnchorMid + (s[q + |AnchorMid|..r] + AnchorClose))), p)
  {
    var link, name := s[p + |AnchorOpen|..q], s[q + |AnchorMid|..r];
    assert OccursAt(s, link, p + |AnchorOpen|);
    assert OccursAt(s, name, q + |AnchorMid|);
    OccursJoin(s, name, AnchorClose, q + |AnchorMid|);
    OccursJoin(s, AnchorMid, name + AnchorClose, q);
    OccursJoin(s, link, AnchorMid + (name + AnchorClose), p + |AnchorOpen|);
    OccursJoin(s, AnchorOpen, link + (AnchorMid + (name + AnchorClose)), p);
  }

  /** Nothing between the start of the match and a position on its line is a line break. */
  lemma LineFree(s: string, p: nat, a: nat, b: int)
    requires OnLine(s, p, b) && p <= a <= b <= |s|
    ensures '\n' !in s[a..b]
  {
    FindFromFirst(s, "\n", p);
    forall i | 0 <= i < b - a ensures s[a..b][i] != '\n' {
      assert !OccursAt(s, "\n", a + i);
      assert s[a + i..a + i + 1] == [s[a + i]];
    }
  }

  /** Wherever the pattern can match at `p`, `ReadmeMatchAt` finds a match there. */
  lemma MatchAtComplete(s: string, p: nat, link: string, name: string)
    requires LinkMatch(s, p, link, name)
    ensures OccursAt(s, AnchorOpen, p) && ReadmeMatchAt(s, p).Some?
  {
    LinkMatchParts(s, p, link, name);
    var q0 := p + |AnchorOpen| + |link|;
    MatchWithin(s, p, q0, q0 + |AnchorMid| + |name|);
  }

  /** `ReadmeMatchAt` matches when `">` and `</a> - ` stand in order after `<a href="`, before the end of the line. */
  lemma MatchWithin(s: string, p: nat, q0: int, r0: int)
    requires OccursAt(s, AnchorOpen, p) && p + |AnchorOpen| <= q0 && OccursAt(s, AnchorMid, q0)
    requires q0 + |AnchorMid| <= r0 && OccursAt(s, AnchorClose, r0)
    requires FindFrom(s, "\n", p) == -1 || FindFrom(s, "\n", p) > r0
    ensures ReadmeMatchAt(s, p).Some?
  {
    FindsAtMost(s, AnchorMid, AnchorClose, p + |AnchorOpen|, q0, r0);
  }

  /** The pieces of a match stand where the match puts them, all before the end of the line. */
  lemma LinkMatchParts(s: string, p: nat, link: string, name: string)
    requires LinkMatch(s, p, link, name)
    ensures OccursAt(s, AnchorOpen, p) && OccursAt(s, AnchorMid, p + |AnchorOpen| + |link|)
    ensures OccursAt(s, AnchorClose, p + |AnchorOpen| + |link| + |AnchorMid| + |name|)
    ensures FindFrom(s, "\n", p) == -1 || FindFrom(s, "\n", p) > p + |AnchorOpen| + |link| + |AnchorMid| + |name|
  {
    OccursFive(s, p, AnchorOpen, link, AnchorMid, name, AnchorClose);
    assert '\n' !in AnchorOpen && '\n' !in AnchorMid && '\n' !in AnchorClose;
    FiveFree(AnchorOpen, link, AnchorMid, name, AnchorClose, '\n');
    BreakAfter(s, p, AnchorOpen + (link + (AnchorMid + (name + AnchorClose))));
  }

  /** The pieces of `a + (x + (m + (y + c)))` occurring at `p` occur where they fall. */
  lemma OccursFive(s: string, p: nat, a: string, x: string, m: string, y: string, c: string)
    requires OccursAt(s, a + (x + (m + (y + c))), p)
    ensures OccursAt(s, a, p) && OccursAt(s, m, p + |a| + |x|) && OccursAt(s, c, p + |a| + |x| + |m| + |y|)
  {
    OccursSplit(s, a, x + (m + (y + c)), p);
    OccursSplit(s, x, m + (y + c), p + |a|);
    OccursSplit(s, m, y + c, p + |a| + |x|);
    OccursSplit(s, y, c, p + |a| + |x| + |m|);
  }

  /** A character in none of five pieces is not in their concatenation. */
  lemma FiveFree(a: string, x: string, m: string, y: string, c: string, ch: char)
    requires ch !in a && ch !in x && ch !in m && ch !in y && ch !in c
    ensures ch !in a + (x + (m + (y + c)))
  {
  }

  /** The first line break at or after `p` comes after a text without one that stands at `p`. */
  lemma BreakAfter(s: string, p: nat, w: string)
    requires OccursAt(s, w, p) && '\n' !in w
    ensures FindFrom(s, "\n", p) == -1 || FindFrom(s, "\n", p) >= p + |w|
  {
    FindFromFirst(s, "\n", p);
  }

  /** Where `<a href="` does not occur, the pattern does not match. */
  lemma NoAnchorNoMatch(s: string, from: int, to: int)
    requires forall k :: from <= k < to ==> !OccursAt(s, AnchorOpen, k)
    ensures NoLinkMatch(s, from, to)
  {
    forall k, link, name | from <= k < to ensures !LinkMatch(s, k, link, name) {
      if LinkMatch(s, k, link, name) {
        OccursSplit(s, AnchorOpen, link + (AnchorMid + (name + AnchorClose)), k);
      }
    }
  }

  /** Where `ReadmeMatchAt` finds nothing, the pattern does not match. */
  lemma MatchAtNone(s: string, p: nat)
    requires OccursAt(s, AnchorOpen, p) && ReadmeMatchAt(s, p).None?
    ensures NoLinkMatch(s, p, p + 1)
  {
    forall k, link, name | p <= k < p + 1 ensures !LinkMatch(s, k, link, name) {
      if LinkMatch(s, k, link, name) {
        MatchAtComplete(s, k, link, name);
      }
    }
  }

  /** What a search from `mid` finds, a search from `from` finds when nothing matches in between. */
  lemma SearchWiden(s: string, from: int, mid: int, r: Option<Bullet>)
    requires from <= mid && NoLinkMatch(s, from, mid)
    requires r.Some? ==> exists p :: mid <= p && Found(s, p, r.value) && NoLinkMatch(s, mid, p)
    requires r.None? ==> NoLinkMatch(s, mid, |s|)
    ensures r.Some? ==> exists p :: from <= p && Found(s, p, r.value) && NoLinkMatch(s, from, p)
    ensures r.None? ==> NoLinkMatch(s, from, |s|)
  {
    if r.Some? {
      var p :| mid <= p && Found(s, p, r.value) && NoLinkMatch(s, mid, p);
      assert NoLinkMatch(s, from, p);
    }
  }

  /**
   * `re.search` of that pattern in `s[from:]`: a match at the leftmost place
   * the pattern can match, and none exactly when it can match nowhere.
   */
  function ReadmeSearch(s: string, from: nat): (r: Option<Bullet>)
    ensures r.Some? ==> exists p :: from <= p && Found(s, p, r.value) && NoLinkMatch(s, from, p)
    ensures r.None? <==> NoLinkMatch(s, from, |s|)
    decreases |s| - from
  {
    var p := FindFrom(s, AnchorOpen, from);
    FindFromFirst(s, AnchorOpen, from);
    if p < 0 then
      NoAnchorNoMatch(s, from, |s|);
      None
    else
      NoAnchorNoMatch(s, from, p);
      match ReadmeMatchAt(s, p)
      case Some(b) =>
        assert Found(s, p, b);
        SomeMatch(s, from, p, b);
        Some(b)
      case None =>
        MatchAtNone(s, p);
        var r := ReadmeSearch(s, p + 1);
        SearchWiden(s, from, p + 1, r);
        r
  }

  /** A match found at `p` with nothing earlier is a match of the whole search. */
  lemma SomeMatch(s: string, from: int, p: int, b: Bullet)
    requires from <= p && Found(s, p, b) && NoLinkMatch(s, from, p)
    ensures !NoLinkMatch(s, from, |s|)
  {
    assert LinkMatch(s, p, b.link, b.name);
  }

  /** `f'- [**{name}**]({link}) - {desc}  \n  {thumb_md}\n\n'`, with the always empty description. */
  function BulletText(b: Bullet): (r: string)
    ensures StartsWith(r, "- [**" + b.name + "**](" + b.link + ") - " + "  \n  ")
    ensures |r| >= 2 && r[|r| - 2..] == "\n\n"
    ensures b.thumb <==> OccursAt(r, "![Thumbnail](" + b.link + "thumbnail.jpg)", |"- [**" + b.name + "**](" + b.link + ") - " + "  \n  "|)
  {
    var head := "- [**" + b.name + "**](" + b.link + ") - " + "" + "  \n  ";
    var md := "![Thumbnail](" + b.link + "thumbnail.jpg)";
    assert head == "- [**" + b.name + "**](" + b.link + ") - " + "  \n  ";
    var r := head + (if b.thumb then md else "") + "\n\n";
    assert r[..|head|] == head;
    assert b.thumb ==> r[|head|..|head| + |md|] == md;
    r
  }

  /** The bullet of one item, or nothing when the pattern does not match its stripped text. */
  function ItemBullet(item: string): (r: string)
    ensures r == [] <==> NoLinkMatch(Strip(item), 0, |Strip(item)|)
  {
    match ReadmeSearch(Strip(item), 0)
    case Some(b) => BulletText(b)
    case None => ""
  }

  /** The bullets of the items that match, in their order. */
  function MdBullets(items: seq<string>): string {
    ConcatMap(items, ItemBullet)
  }

  /** `md_list` for a `slides_html`. */
  function MdList(slidesHtml: string): string {
    MdBullets(LiItems(slidesHtml))
  }

  /** `md_list` for a `slides_html`: the loop over its items. */
  method ReadmeList(slidesHtml: string) returns (md: string)
    ensures md == MdList(slidesHtml)
  {
    md := CollectBullets(LiItems(slidesHtml));
  }

  method CollectBullets(items: seq<string>) returns (md: string)
    ensures md == MdBullets(items)
  {
    md := "";
    var i := 0;
    while i < |items|
      invariant 0 <= i <= |items|
      invariant md == MdBullets(items[..i])
    {
      ConcatMapPrefix(items, i, ItemBullet);
      var found := ReadmeSearch(Strip(items[i]), 0);
      if found.Some? {
        md := md + BulletText(found.value);
      } else {
        assert ItemBullet(items[i]) == "";
      }
      i := i + 1;
    }
    assert items[..i] == items;
  }

  // ---------------------------------------------------------------- the splice

  /** `updated_list`: the old list without trailing blanks, then the new items, one per line. */
  function UpdatedList(content: string, slides: seq<string>): (r: string)
    ensures ListRegion(content).Some? ==> StartsWith(r, RStrip(ListRegion(content).value) + ItemSep)
    ensures ListStart(content) == -1 ==> r == ItemSep + Join(ItemSep, slides) + ListTail
    ensures |ListTail| <= |r| && r[|r| - |ListTail|..] == ListTail
  {
    var start, end := ListStart(content), ListEnd(content);
    var current := if start != -1 then RStrip(Slice(content, start + MarkerWidth, end)) else "";
    ListText(current, slides)
  }

  /** `content[:start+18] + updated_list + content[end:]`. */
  function Spliced(content: string, slides: seq<string>): (r: string)
    ensures ListStart(content) != -1 ==> StartsWith(r, content[..ListStart(content) + MarkerWidth])
    ensures ListStart(content) != -1 ==> OccursAt(r, UpdatedList(content, slides), ListStart(content) + MarkerWidth)
    ensures ListEnd(content) != -1 ==>
              |content| - ListEnd(content) <= |r| && r[|r| - (|content| - ListEnd(content))..] == content[ListEnd(content)..]
  {
    var start, end := ListStart(content), ListEnd(content);
    var front, list, back := Slice(content, 0, start + MarkerWidth), UpdatedList(content, slides), Slice(content, end, |content|);
    Parts3(front, list, back);
    assert end != -1 ==> back == content[end..];
    front + list + back
  }

  /**
   * Without the marker the cut still falls at `-1 + 18`: the page keeps its
   * first 17 characters, then the new list, then the text from the first
   * list close on, or only its last character when there is no list close.
   */
  lemma SpliceWithoutMarker(content: string, slides: seq<string>)
    requires ListStart(content) == -1 && |content| >= MarkerWidth - 1
    ensures ListEnd(content) != -1 ==>
              Spliced(content, slides) == content[..MarkerWidth - 1] + UpdatedList(content, slides) + content[ListEnd(content)..]
    ensures ListEnd(content) == -1 ==>
              Spliced(content, slides) == content[..MarkerWidth - 1] + UpdatedList(content, slides) + content[|content| - 1..]
  {
  }

  /** The repositories an auto-update adds, for the page `content`. */
  function AddedNames(content: string, user: string, names: seq<string>, readmes: map<string, string>): seq<string> {
    NewNames(GalleryNames(names), ExistingLinks(content, user), readmes)
  }

  /** The page after the auto-update route; `names` is the GitHub listing of the user's repositories. */
  function AutoUpdated(content: string, user: string, names: seq<string>, readmes: map<string, string>, thumbs: set<string>): string {
    var slides := NewSlides(user, AddedNames(content, user, names, readmes), readmes, thumbs);
    if slides == [] then content else Spliced(content, slides)
  }

  /**
   * The auto-update route: the page it writes and the README it publishes,
   * if any; `stamp` is the formatted time of the update.
   */
  method AutoUpdate(content: string, user: string, names: seq<string>, readmes: map<string, string>, thumbs: set<string>, stamp: string)
    returns (html: string, readme: Option<string>)
    ensures html == AutoUpdated(content, user, names, readmes, thumbs)
    ensures var slides := NewSlides(user, AddedNames(content, user, names, readmes), readmes, thumbs);
            readme == if slides == [] then None else Some(ReadmeDocument(MdList(UpdatedList(content, slides)), stamp))
  {
    var repos := GalleryNames(names);
    var start := Find(content, SortableOpen);
    var end := Find(content, UlClose);
    var existing: set<string> := {};
    if start != -1 && end != -1 {
      var listContent := Slice(content, start + MarkerWidth, end);
      existing := CollectLinks(LiElements(listContent), user);
    }
    assert existing == ExistingLinks(content, user);
    var newSlides := CollectNewSlides(user, repos, existing, readmes, thumbs);
    assert newSlides == NewSlides(user, AddedNames(content, user, names, readmes), readmes, thumbs);
    if newSlides != [] {
      var updatedList := UpdatedList(content, newSlides);
      html := Spliced(content, newSlides);
      var md := ReadmeList(updatedList);
      readme := Some(ReadmeDocument(md, stamp));
    } else {
      html := content;
      readme := None;
    }
  }
}
