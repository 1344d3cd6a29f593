/**
 * The list logic of the second editor app (`galeri-update.py`): the list
 * region of `index.html`, which starts after the first `>` that follows
 * `<ul id="sortable"`, the editor view of its items, the repositories the
 * page already links to, the cleaned slide name and description of a slide
 * repository, one styled `<li class=…>` per new slide repository, the splice
 * of those entries into the page, and the Markdown list of the README it
 * publishes. The GitHub listing, the README texts of the repositories and
 * the thumbnails that answer are inputs.
 */
module GaleriEditor {
  import opened Opt
  import opened PyStr
  import opened Naming
  import opened Markup
  import GalleryEditor

  /** The list marker without its `>`: attributes may follow it. */
  const SortableStart: string := "<ul id=\"sortable\""

  // ---------------------------------------------------------------- the list region

  /** `content.find('<ul id="sortable"')`. */
  function ListStart(content: string): int {
    Find(content, SortableStart)
  }

  /** `content.find('</ul>')`: the first list close anywhere in the page. */
  function ListEnd(content: string): int {
    Find(content, UlClose)
  }

  /**
   * `start_content`: one past the first `>` at or after the marker when both
   * markers are found (0 when no `>` follows), else its default 0.
   */
  function ListOffset(content: string): (r: nat)
    ensures r <= |content|
  {
    var start, end := ListStart(content), ListEnd(content);
    if start != -1 && end != -1 then FindFrom(content, ">", start) + 1 else 0
  }

  /** `content[start_content:end]` when both markers are found, else nothing. */
  function ListRegion(content: string): (r: Option<string>)
    ensures r.Some? ==> NoOcc(r.value, UlClose)
  {
    var start, end := ListStart(content), ListEnd(content);
    if start != -1 && end != -1 then
      GalleryEditor.RegionFree(content, ListOffset(content), end);
      Some(Slice(content, ListOffset(content), end))
    else None
  }

  /** The region is missing exactly when one of the markers is. */
  lemma RegionMissing(content: string)
    ensures ListRegion(content).None? <==> NoOcc(content, SortableStart) || NoOcc(content, UlClose)
    ensures ListRegion(content).None? ==> ListOffset(content) == 0
  {
    NoOccFind(content, SortableStart);
    NoOccFind(content, UlClose);
  }

  /**
   * With both markers found and the marker before the first list close, the
   * offset lies one past the first `>` after the marker, which comes past
   * the marker's end and at the latest in that list close.
   */
  lemma OffsetAfterTag(content: string)
    requires ListStart(content) != -1 && ListStart(content) < ListEnd(content)
    ensures var start, end, offset := ListStart(content), ListEnd(content), ListOffset(content);
            && start + |SortableStart| < offset <= end + |UlClose|
            && content[offset - 1] == '>'
            && '>' !in content[start..offset - 1]
  {
    var start, end := ListStart(content), ListEnd(content);
    var g := FindFrom(content, ">", start);
    assert OccursAt(content, SortableStart, start) && OccursAt(content, UlClose, end) by {
      FindFound(content, SortableStart, 0);
      FindFound(content, UlClose, 0);
    }
    FindAfterClose(content, start, end);
    assert ListOffset(content) == g + 1;
    MarkerHasNoTag(content, start, g);
    TagIsFirst(content, start, g);
  }

  /** The list close holds a `>`, so the search for one stops there at the latest. */
  lemma FindAfterClose(content: string, start: nat, end: int)
    requires start <= end && OccursAt(content, UlClose, end)
    ensures 0 <= FindFrom(content, ">", start) <= end + |UlClose| - 1
  {
    assert content[end..end + 5] == UlClose;
    assert content[end + 4..end + 5] == [content[end..end + 5][4]];
    assert OccursAt(content, ">", end + 4);
    FindFromFirst(content, ">", start);
  }

  /** The marker holds no `>`, so the first one after it lies past its end. */
  lemma MarkerHasNoTag(content: string, start: nat, g: int)
    requires OccursAt(content, SortableStart, start) && g == FindFrom(content, ">", start) && g >= 0
    ensures start + |SortableStart| <= g
  {
    FindFromFirst(content, ">", start);
    assert content[start..start + |SortableStart|] == SortableStart;
    assert '>' !in SortableStart;
    assert content[g..g + 1] == [content[g]];
    forall i | start <= i < start + |SortableStart| ensures content[i] != '>' {
      assert content[i] == content[start..start + |SortableStart|][i - start];
    }
  }

  /** The first `>` found after the marker ends the text that holds none. */
  lemma TagIsFirst(content: string, start: nat, g: int)
    requires g == FindFrom(content, ">", start) && g >= 0
    ensures content[g] == '>' && '>' !in content[start..g]
  {
    FindFromFirst(content, ">", start);
    assert content[g..g + 1] == [content[g]];
    forall i | start <= i < g ensures content[i] != '>' {
      assert content[i..i + 1] == [content[i]];
      assert !OccursAt(content, ">", i);
    }
  }

  /** Up to the first list close, the region is the text after the offset, and it holds no list close. */
  lemma RegionAfterTag(content: string)
    requires ListStart(content) != -1 && ListStart(content) < ListEnd(content)
    ensures var end, offset := ListEnd(content), ListOffset(content);
            && (offset <= end ==> ListRegion(content) == Some(content[offset..end]) && NoOcc(content[offset..end], UlClose))
            && (offset > end ==> ListRegion(content) == Some([]))
  {
    var end, offset := ListEnd(content), ListOffset(content);
    if offset <= end {
      FreeBeforeFind(content, UlClose, 0, end);
      NoOccSlice(content[0..end], UlClose, offset, end);
      assert content[0..end][offset..end] == content[offset..end];
    }
  }

  // ---------------------------------------------------------------- the editor view

  /** The `slides_html` the editor route renders. */
  function EditorView(content: string): string {
    match ListRegion(content)
    case None => ""
    case Some(region) => BoxedView(region)
  }

  /**
   * The editor shows nothing without both markers; otherwise reading its
   * view back with the same item scanner gives one text box per item of
   * the list region, holding that item stripped.
   */
  lemma EditorViewItems(content: string)
    ensures ListRegion(content).None? ==> EditorView(content) == ""
    ensures ListRegion(content).Some? ==> LiItems(EditorView(content)) == Boxed(LiItems(ListRegion(content).value))
  {
    if ListRegion(content).Some? {
      BoxedViewItems(ListRegion(content).value);
    }
  }

  // ---------------------------------------------------------------- links already on the page

  /** `existing_links`: the repositories the items of the list region link to. */
  function ExistingLinks(content: string, user: string): set<string> {
    match ListRegion(content)
    case None => {}
    case Some(region) => LinkSet(LiElements(region), user)
  }

  // ---------------------------------------------------------------- the two variants agree on a plain marker

  /**
   * When the first `<ul id="sortable"` of the page is followed directly by
   * `>`, both apps find the same list: the same region, the same editor view
   * and the same links.
   */
  lemma VariantsAgree(content: string, user: string)
    requires ListStart(content) != -1
    requires ListStart(content) + |SortableStart| < |content| && content[ListStart(content) + |SortableStart|] == '>'
    ensures GalleryEditor.ListStart(content) == ListStart(content)
    ensures ListRegion(content) == GalleryEditor.ListRegion(content)
    ensures EditorView(content) == GalleryEditor.EditorView(content)
    ensures ExistingLinks(content, user) == GalleryEditor.ExistingLinks(content, user)
  {
    var start := ListStart(content);
    MarkerOfPlainTag(content, start);
    if ListEnd(content) != -1 {
      TagRightAfter(content, start);
    }
  }

  /** A `>` right after the marker is the first one after it. */
  lemma TagRightAfter(content: string, start: nat)
    requires start == ListStart(content)
    requires start + |SortableStart| < |content| && content[start + |SortableStart|] == '>'
    ensures FindFrom(content, ">", start) == start + |SortableStart|
  {
    FindFromFirst(content, SortableStart, 0);
    assert '>' !in SortableStart;
    FindCharAfter(content, SortableStart, '>', start);
  }

  /** Where the short marker first occurs followed by `>`, the full marker first occurs. */
  lemma MarkerOfPlainTag(content: string, start: nat)
    requires start == ListStart(content)
    requires start + |SortableStart| < |content| && content[start + |SortableStart|] == '>'
    ensures GalleryEditor.ListStart(content) == start
  {
    assert GalleryEditor.SortableOpen == SortableStart + ">";
    FindFromFirst(content, SortableStart, 0);
    PlainTagOccurs(content, SortableStart, start);
    FindExtended(content, SortableStart, ">", start);
  }

  lemma PlainTagOccurs(content: string, m: string, start: nat)
    requires OccursAt(content, m, start) && start + |m| < |content| && content[start + |m|] == '>'
    ensures OccursAt(content, m + ">", start)
  {
    assert content[start..start + |m| + 1] == content[start..start + |m|] + [content[start + |m|]];
  }

  // ---------------------------------------------------------------- the slide name

  /** `slide_name`: the first README line without its heading marks, else the repository's name. */
  function Title(readme: string, repo: string): string {
    SlideName(Split(readme, "\n"), repo)
  }

  /** `word.capitalize()` for each word. */
  function Capitalized(words: seq<string>): (r: seq<string>)
    ensures |r| == |words|
    ensures forall k :: 0 <= k < |words| ==> r[k] == Capitalize(words[k])
  {
    seq(|words|, k requires 0 <= k < |words| => Capitalize(words[k]))
  }

  /** `clean_slide_name`: every `gallery-` removed, the rest cut at `-`, each word capitalized, joined by spaces. */
  function CleanSlideName(name: string): (r: string)
    ensures '-' !in r
  {
    NoDash(name);
    Join(" ", Capitalized(Split(Replace(name, GalleryPrefix, ""), "-")))
  }

  /** The words of a clean name are split at every `-`, so none is left. */
  lemma NoDash(name: string)
    ensures '-' !in Join(" ", Capitalized(Split(Replace(name, GalleryPrefix, ""), "-")))
  {
    var parts := Split(Replace(name, GalleryPrefix, ""), "-");
    SplitPiecesFree(Replace(name, GalleryPrefix, ""), "-");
    forall k | 0 <= k < |parts| ensures '-' !in Capitalize(parts[k]) {
      NoOccChar(parts[k], '-');
      CapitalizeFree(parts[k], '-');
    }
    JoinFree(" ", Capitalized(parts), '-');
  }

  /** Cleaning brings in no character other than spaces and letters. */
  lemma CleanNameKeepsOut(name: string, c: char)
    requires c !in name && c != ' ' && !('a' <= c <= 'z') && !('A' <= c <= 'Z')
    ensures c !in CleanSlideName(name)
  {
    var s := Replace(name, GalleryPrefix, "");
    ReplaceFree(name, GalleryPrefix, "", c);
    var parts := Split(s, "-");
    SplitFree(s, "-", c);
    forall k | 0 <= k < |parts| ensures c !in Capitalize(parts[k]) {
      CapitalizeFree(parts[k], c);
    }
    JoinFree(" ", Capitalized(parts), c);
  }

  /**
   * For a name without spaces the words of the clean name, split at its
   * blanks, are the `-`-separated words of the name without `gallery-`,
   * each capitalized.
   */
  lemma CleanNameWords(name: string)
    requires ' ' !in name
    ensures Split(CleanSlideName(name), " ") == Capitalized(Split(Replace(name, GalleryPrefix, ""), "-"))
  {
    var s := Replace(name, GalleryPrefix, "");
    var parts := Split(s, "-");
    ReplaceFree(name, GalleryPrefix, "", ' ');
    SplitFree(s, "-", ' ');
    forall k | 0 <= k < |parts| ensures ' ' !in Capitalize(parts[k]) {
      CapitalizeFree(parts[k], ' ');
    }
    SplitJoin(' ', Capitalized(parts));
  }

  /**
   * For a name without spaces the cleaning is undone up to case: in lower
   * case, with each space put back as `-`, the clean name is the name
   * without its `gallery-` parts.
   */
  lemma CleanNameRoundTrip(name: string)
    requires ' ' !in name
    ensures Replace(Lower(CleanSlideName(name)), " ", "-") == Lower(Replace(name, GalleryPrefix, ""))
  {
    var s := Replace(name, GalleryPrefix, "");
    var parts := Split(s, "-");
    var caps := Capitalized(parts);
    LowerJoin(" ", caps);
    assert LowerEach(caps) == LowerEach(parts) by {
      forall k | 0 <= k < |parts| ensures Lower(caps[k]) == Lower(parts[k]) {
        LowerCapitalize(parts[k]);
      }
    }
    var lowered := LowerEach(parts);
    ReplaceFree(name, GalleryPrefix, "", ' ');
    SplitFree(s, "-", ' ');
    forall k | 0 <= k < |parts| ensures ' ' !in lowered[k] {
      LowerFree(parts[k], ' ');
    }
    ReplaceIsJoinSplit(Join(" ", lowered), " ", "-");
    SplitJoin(' ', lowered);
    LowerJoin("-", parts);
    JoinSplit(s, "-");
  }

  // ---------------------------------------------------------------- the description

  /** `line.strip().lstrip('#').strip()`. */
  function CleanLine(line: string): string {
    Strip(LStripWith(Strip(line), Hash))
  }

  /** A later README line that goes into the description of the slide `name`. */
  predicate Described(line: string, name: string) {
    Kept(line) && CleanLine(line) != [] && Lower(CleanLine(line)) != Lower(name)
  }

  /** The same test, as a filter for the slide `name`. */
  function DescribedBy(name: string): string -> bool {
    line => Described(line, name)
  }

  /** `description`: the later lines that pass the test, cleaned, in their order. */
  function DescriptionLines(lines: seq<string>, name: string): seq<string> {
    FilterMap(Later(lines), DescribedBy(name), CleanLine)
  }

  /** A text is a description line exactly when some later line passes the test and cleans to it. */
  lemma DescriptionLinesMembers(lines: seq<string>, name: string, x: string)
    ensures x in DescriptionLines(lines, name) <==>
              exists j :: 0 <= j < |Later(lines)| && Described(Later(lines)[j], name) && CleanLine(Later(lines)[j]) == x
  {
    FilterMapMembers(Later(lines), DescribedBy(name), CleanLine, x);
  }

  /** Every description line is trimmed and differs from the slide name, ignoring case. */
  lemma DescriptionLinesShape(lines: seq<string>, name: string)
    ensures forall k :: 0 <= k < |DescriptionLines(lines, name)| ==>
              Trimmed(DescriptionLines(lines, name)[k]) && Lower(DescriptionLines(lines, name)[k]) != Lower(name)
  {
    var later := Later(lines);
    var good := (x: string) => Trimmed(x) && Lower(x) != Lower(name);
    FilterMapAll(later, DescribedBy(name), CleanLine, good);
  }

  /** One more later line adds its cleaned text exactly when it passes the test. */
  lemma DescriptionStep(later: seq<string>, i: nat, name: string)
    requires i < |later|
    ensures FilterMap(later[..i + 1], DescribedBy(name), CleanLine)
            == FilterMap(later[..i], DescribedBy(name), CleanLine) + (if DescribedBy(name)(later[i]) then [CleanLine(later[i])] else [])
  {
    FilterMapPrefix(later, i, DescribedBy(name), CleanLine);
  }

  /** The loop body's test of one later line, and the line as cleaned when it passes. */
  method TestLine(line: string, slideName: string) returns (keep: bool, cleanLine: string)
    ensures keep == DescribedBy(slideName)(line)
    ensures keep ==> cleanLine == CleanLine(line)
  {
    keep := false;
    cleanLine := "";
    if Kept(line) {
      cleanLine := CleanLine(line);
      keep := cleanLine != [] && Lower(cleanLine) != Lower(slideName);
    }
  }

  /** The loop that fills `description` from the lines after the first. */
  method CollectDescription(lines: seq<string>, slideName: string) returns (description: seq<string>)
    ensures description == DescriptionLines(lines, slideName)
  {
    var later := Later(lines);
    description := [];
    var i := 0;
    while i < |later|
      invariant 0 <= i <= |later|
      invariant description == FilterMap(later[..i], DescribedBy(slideName), CleanLine)
    {
      DescriptionStep(later, i, slideName);
      var keep, cleanLine := TestLine(later[i], slideName);
      if keep {
        description := description + [cleanLine];
      }
      i := i + 1;
    }
    assert later[..i] == later;
  }

  /** `description_text`: the description lines joined by spaces, or `No description available`. */
  function DescriptionText(readme: string, repo: string): (r: string)
    ensures Trimmed(r) && '\n' !in r
  {
    var lines := Split(readme, "\n");
    var description := DescriptionLines(lines, SlideName(lines, repo));
    if description == [] then NoDescriptionTrimmed(); "No description available"
    else
      DescriptionLinesShape(lines, SlideName(lines, repo));
      DescriptionBreakFree(readme, SlideName(lines, repo));
      GalleryEditor.JoinTrimmed(description);
      Join(" ", description)
  }

  lemma NoDescriptionTrimmed()
    ensures Trimmed("No description available") && '\n' !in "No description available"
  {
  }

  /** The description lines of a README hold no line break. */
  lemma DescriptionBreakFree(readme: string, name: string)
    ensures forall k :: 0 <= k < |DescriptionLines(Split(readme, "\n"), name)| ==> '\n' !in DescriptionLines(Split(readme, "\n"), name)[k]
  {
    var lines := Split(readme, "\n");
    SplitPiecesFree(readme, "\n");
    var later := Later(lines);
    forall k | 0 <= k < |later| && DescribedBy(name)(later[k]) ensures '\n' !in CleanLine(later[k]) {
      assert later[k] == lines[k + 1];
      NoOccChar(lines[k + 1], '\n');
      CleanLineKeepsOut(later[k], '\n');
    }
    FilterMapAll(later, DescribedBy(name), CleanLine, GalleryEditor.NoBreak);
  }

  /** Cleaning a line brings in no character. */
  lemma CleanLineKeepsOut(line: string, c: char)
    requires c !in line
    ensures c !in CleanLine(line)
  {
    var s := Strip(line);
    SuffixKeepsOut(s, |s| - |LStripWith(s, Hash)|, c);
  }

  // ---------------------------------------------------------------- one new slide

  /** `<li class="gallery-item bg-white p-6 rounded-xl shadow-lg">`, cut after the tag name. */
  const ItemTag: string := "<li "
  const ItemClass: string := "class=\"gallery-item" + " bg-white p-6" + " rounded-xl shadow-lg\">"
  /** `<a href="{pages_link}" class="block">` around the link. */
  const LinkOpen: string := "<a href=\""
  const LinkClass: string := "\" class=\"block\">"
  const DivOpen: string := "<div>"
  /** `<h2 class="text-xl font-semibold text-blue-600 hover:underline">`. */
  const H2Tag: string := "<h2 "
  const H2Class: string := "class=\"text-xl" + " font-semibold" + " text-blue-600" + " hover:underline\">"
  const H2Close: string := "</h2>"
  /** `<p class="text-gray-600 mt-2 text-sm">`. */
  const PTag: string := "<p "
  const PClass: string := "class=\"text-gray-600" + " mt-2 text-sm\">"
  const PClose: string := "</p>"
  const DivClose: string := "</div>"
  const LinkClose: string := "</a>"
  /** `<img src="{thumb_url}" alt="Thumbnail" class="w-full h-64 object-contain rounded-lg mb-4">` around the address. */
  const ImgTag: string := "<img src=\""
  const ImgAttrs: string := "\" alt=\"Thumbnail\"" + " class=\"w-full h-64" + " object-contain" + " rounded-lg mb-4\">"

  /** The thumbnail image, when the repository answers for `thumbnail.jpg`. */
  function Thumbnail(user: string, repo: string, exists_: bool): string {
    if exists_ then ImgTag + ((PagesLink(user, repo) + "thumbnail.jpg") + ImgAttrs) else ""
  }

  /** The styled entry: a card that links the slide's page and shows the thumbnail, the name and the description. */
  function EntryText(user: string, repo: string, name: string, desc: string, thumb: string): (r: string)
    ensures OccursAt(r, LinkOpen + PagesLink(user, repo) + LinkClass, |ItemTag + ItemClass|)
    ensures OccursAt(r, thumb, |ItemTag + ItemClass| + |LinkOpen + PagesLink(user, repo) + LinkClass| + |DivOpen|)
    ensures OccursAt(r, H2Tag + H2Class + name + H2Close, |ItemTag + ItemClass| + |LinkOpen + PagesLink(user, repo) + LinkClass| + |DivOpen| + |thumb|)
  {
    var r := ItemTag + (ItemClass + (LinkOpen + (PagesLink(user, repo) + (LinkClass + (DivOpen + (thumb
      + (H2Tag + (H2Class + (name + (H2Close + (PTag + (PClass + (desc + (PClose + (DivClose + (LinkClose + LiClose))))))))))))))));
    CardParts(ItemTag, ItemClass, LinkOpen, PagesLink(user, repo), LinkClass, DivOpen, thumb, H2Tag, H2Class, name, H2Close,
      PTag, PClass, desc, PClose, DivClose, LinkClose, LiClose);
    r
  }

  /** Where the parts of a card stand in the text of its pieces. */
  lemma CardParts(i: string, ic: string, lo: string, pl: string, lc: string, dv: string, th: string, h: string, hc: string,
                  n: string, hcl: string, pt: string, pc: string, ds: string, pcl: string, dc: string, lcl: string, li: string)
    ensures var r := i + (ic + (lo + (pl + (lc + (dv + (th + (h + (hc + (n + (hcl + (pt + (pc + (ds + (pcl + (dc + (lcl + li))))))))))))))));
            && OccursAt(r, lo + pl + lc, |i + ic|)
            && OccursAt(r, th, |i + ic| + |lo + pl + lc| + |dv|)
            && OccursAt(r, h + hc + n + hcl, |i + ic| + |lo + pl + lc| + |dv| + |th|)
  {
    var rest := pt + (pc + (ds + (pcl + (dc + (lcl + li)))));
    var t2 := th + (h + (hc + (n + (hcl + rest))));
    assert t2 == th + ((h + hc + n + hcl) + rest);
    var t3 := lo + (pl + (lc + (dv + t2)));
    assert t3 == (lo + pl + lc) + (dv + t2);
    Nested(i + ic, lo + pl + lc, dv, th, h + hc + n + hcl, rest);
  }

  /** Where the pieces of a right-nested concatenation stand. */
  lemma Nested(a: string, b: string, x: string, c: string, d: string, e: string)
    ensures var r := a + (b + (x + (c + (d + e))));
            && OccursAt(r, b, |a|) && OccursAt(r, c, |a| + |b| + |x|) && OccursAt(r, d, |a| + |b| + |x| + |c|)
            && |e| <= |r| && r[|r| - |e|..] == e
  {
    var r := a + (b + (x + (c + (d + e))));
    assert r[|a|..|a| + |b|] == b;
    assert r[|a| + |b| + |x|..|a| + |b| + |x| + |c|] == c;
    assert r[|a| + |b| + |x| + |c|..|a| + |b| + |x| + |c| + |d|] == d;
    assert r[|r| - |e|..] == e;
  }

  function Entry(user: string, repo: string, readme: string, thumb: bool): (r: string)
    ensures OccursAt(r, LinkOpen + PagesLink(user, repo) + LinkClass, |ItemTag + ItemClass|)
    ensures thumb ==> OccursAt(r, ImgTag + ((PagesLink(user, repo) + "thumbnail.jpg") + ImgAttrs), |ItemTag + ItemClass| + |LinkOpen + PagesLink(user, repo) + LinkClass| + |DivOpen|)
    ensures !thumb ==> OccursAt(r, H2Tag + H2Class + CleanSlideName(Title(readme, repo)) + H2Close, |ItemTag + ItemClass| + |LinkOpen + PagesLink(user, repo) + LinkClass| + |DivOpen|)
  {
    EntryText(user, repo, CleanSlideName(Title(readme, repo)), DescriptionText(readme, repo), Thumbnail(user, repo, thumb))
  }

  /** The loop body that builds one entry from its README. */
  method BuildEntry(user: string, repo: string, readme: string, thumb: bool) returns (entry: string)
    ensures entry == Entry(user, repo, readme, thumb)
  {
    var lines := Split(readme, "\n");
    var slideName := SlideName(lines, repo);
    var cleanSlideName := Join(" ", Capitalized(Split(Replace(slideName, GalleryPrefix, ""), "-")));
    var description := CollectDescription(lines, slideName);
    var descriptionText := if description != [] then Join(" ", description) else "No description available";
    var pagesLink := PagesLink(user, repo);
    var thumbUrl := pagesLink + "thumbnail.jpg";
    var thumbnail := if thumb then ImgTag + (thumbUrl + ImgAttrs) else "";
    entry := ItemTag + (ItemClass + (LinkOpen + (pagesLink + (LinkClass + (DivOpen + (thumbnail
      + (H2Tag + (H2Class + (cleanSlideName + (H2Close + (PTag + (PClass + (descriptionText
      + (PClose + (DivClose + (LinkClose + LiClose))))))))))))))));
  }

  // ---------------------------------------------------------------- the new slides

  /** The entries of `names`, in their order. */
  function NewSlides(user: string, names: seq<string>, readmes: map<string, string>, thumbs: set<string>): seq<string>
    requires forall x :: x in names ==> x in readmes
  {
    seq(|names|, k requires 0 <= k < |names| => Entry(user, names[k], readmes[names[k]], names[k] in thumbs))
  }

  lemma NewSlidesSnoc(user: string, names: seq<string>, x: string, readmes: map<string, string>, thumbs: set<string>)
    requires forall y :: y in names ==> y in readmes
    requires x in readmes
    ensures NewSlides(user, names + [x], readmes, thumbs) == NewSlides(user, names, readmes, thumbs) + [Entry(user, x, readmes[x], x in thumbs)]
  {
  }

  /** One more repository of the listing adds its entry exactly when it is fresh. */
  lemma CollectStep(user: string, repos: seq<string>, i: nat, existing: set<string>, readmes: map<string, string>, thumbs: set<string>)
    requires i < |repos|
    ensures var x, before := repos[i], NewNames(repos[..i], existing, readmes);
            Fresh(x, existing, readmes) ==>
              NewSlides(user, NewNames(repos[..i + 1], existing, readmes), readmes, thumbs)
              == NewSlides(user, before, readmes, thumbs) + [Entry(user, x, readmes[x], x in thumbs)]
    ensures !Fresh(repos[i], existing, readmes) ==> NewNames(repos[..i + 1], existing, readmes) == NewNames(repos[..i], existing, readmes)
  {
    assert repos[..i + 1] == repos[..i] + [repos[i]];
    NewNamesSnoc(repos[..i], repos[i], existing, readmes);
    if Fresh(repos[i], existing, readmes) {
      NewSlidesSnoc(user, NewNames(repos[..i], existing, readmes), repos[i], readmes, thumbs);
    }
  }

  /** The loop that fills `new_slides`, in the order of the listing. */
  method CollectNewSlides(user: string, repos: seq<string>, existing: set<string>, readmes: map<string, string>, thumbs: set<string>)
    returns (slides: seq<string>)
    ensures slides == NewSlides(user, NewNames(repos, existing, readmes), readmes, thumbs)
  {
    slides := [];
    var i := 0;
    while i < |repos|
      invariant 0 <= i <= |repos|
      invariant slides == NewSlides(user, NewNames(repos[..i], existing, readmes), readmes, thumbs)
    {
      var name := repos[i];
      CollectStep(user, repos, i, existing, readmes, thumbs);
      if name !in existing && name in readmes && Strip(readmes[name]) != [] {
        var entry := BuildEntry(user, name, readmes[name], name in thumbs);
        slides := slides + [entry];
      }
      i := i + 1;
    }
    assert repos[..i] == repos;
  }

  // ---------------------------------------------------------------- the README's Markdown list

  /** The first three groups of a match, the ones the unpacking `link, name, desc, thumb` reads. */
  datatype Groups = Groups(first: string, second: string, third: string)

  const AnchorMid: string := "\">"
  const AnchorEnd: string := "</a><p"
  const ParaEnd: string := "</p>"

  /**
   * One lazy `(.*?)lit` under DOTALL from `from`: the text up to the first
   * `lit` at or after `from`, and the index just past that `lit`.
   */
  function Lazy(t: string, from: nat, lit: string): (r: Option<(string, nat)>)
    requires lit != []
    ensures r.Some? ==> from + |r.value.0| + |lit| == r.value.1 <= |t|
    ensures r.Some? ==> OccursAt(t, r.value.0 + lit, from) && NoOcc(r.value.0, lit)
    ensures r.None? ==> NoneFrom(t, lit, from)
  {
    var q := FindFrom(t, lit, from);
    FindFromFirst(t, lit, from);
    if q < 0 then None
    else
      FreeBeforeFind(t, lit, from, q);
      OccursJoin(t, t[from..q], lit, from);
      Some((t[from..q], q + |lit|))
  }

  /** A lazy group fails exactly when its literal occurs nowhere from `from` on. */
  lemma LazyFails(t: string, from: nat, lit: string)
    requires lit != []
    ensures Lazy(t, from, lit).None? <==> NoneFrom(t, lit, from)
  {
    if Lazy(t, from, lit).Some? {
      var x := Lazy(t, from, lit).value.0;
      OccursSplit(t, x, lit, from);
      assert OccursAt(t, lit, from + |x|);
    }
  }

  /**
   * `re.search(r'<a href="(.*?)">(.*?)</a><p.*?>(.*?)</p>…', t[from:], re.DOTALL)`.
   * Under DOTALL each lazy `.*?` stops at the first occurrence of the
   * literal after it: a later one leaves less text for the rest, so if the
   * rest fails after the first it fails after every later one. For the same
   * reason, when the match fails from the first `<a href="` it fails from
   * every later one, and the search only needs the first.
   */
  function AnchorGroups(t: string, from: nat): (r: Option<Groups>)
    ensures r.Some? ==> var p := FindFrom(t, LinkOpen, from);
              && from <= p
              && OccursAt(t, LinkOpen + r.value.first + AnchorMid + r.value.second + AnchorEnd, p)
              && (exists e :: p < e && OccursAt(t, ">" + r.value.third + ParaEnd, e))
              && NoOcc(r.value.first, AnchorMid) && NoOcc(r.value.second, AnchorEnd) && NoOcc(r.value.third, ParaEnd)
  {
    var r := LazyGroups(t, from, LinkOpen, AnchorMid, AnchorEnd, ">", ParaEnd);
    if r.Some? then
      LazyMatch(t, from, LinkOpen, AnchorMid, AnchorEnd, ">", ParaEnd);
      r
    else r
  }

  /**
   * The chain of first finds for `open(.*?)mid(.*?)close.*?gap(.*?)end`
   * under DOTALL, searched from `from`.
   */
  function LazyGroups(t: string, from: nat, open: string, mid: string, close: string, gap: string, end: string): (r: Option<Groups>)
    requires open != [] && mid != [] && close != [] && gap != [] && end != []
    ensures r.Some? ==> FindFrom(t, open, from) >= 0
  {
    var p := FindFrom(t, open, from);
    if p < 0 then None else LazyFirst(t, p + |open|, mid, close, gap, end)
  }

  /** `(.*?)mid(.*?)close.*?gap(.*?)end` from `a`. */
  function LazyFirst(t: string, a: nat, mid: string, close: string, gap: string, end: string): Option<Groups>
    requires mid != [] && close != [] && gap != [] && end != []
  {
    match Lazy(t, a, mid)
    case None => None
    case Some(x) =>
      match LazySecond(t, x.1, close, gap, end)
      case None => None
      case Some(y) => Some(Groups(x.0, y.0, y.1))
  }

  /** `(.*?)close.*?gap(.*?)end` from `b`. */
  function LazySecond(t: string, b: nat, close: string, gap: string, end: string): Option<(string, string)>
    requires close != [] && gap != [] && end != []
  {
    match Lazy(t, b, close)
    case None => None
    case Some(x) =>
      match LazyThird(t, x.1, gap, end)
      case None => None
      case Some(third) => Some((x.0, third))
  }

  /** `.*?gap(.*?)end` from `c`. */
  function LazyThird(t: string, c: nat, gap: string, end: string): Option<string>
    requires gap != [] && end != []
  {
    var k := FindFrom(t, gap, c);
    if k < 0 then None
    else
      match Lazy(t, k + |gap|, end)
      case None => None
      case Some(x) => Some(x.0)
  }

  /** The tail of the chain reads `gap`, its group and `end`, somewhere at or after `c`. */
  lemma ThirdReads(t: string, c: nat, gap: string, end: string)
    requires gap != [] && end != [] && LazyThird(t, c, gap, end).Some?
    ensures var x := LazyThird(t, c, gap, end).value;
            (exists e :: c <= e && OccursAt(t, gap + x + end, e)) && NoOcc(x, end)
  {
    var k := FindFrom(t, gap, c);
    FindFound(t, gap, c);
    var x := Lazy(t, k + |gap|, end).value.0;
    OccursJoin(t, gap, x + end, k);
    assert gap + (x + end) == gap + x + end;
  }

  /** The middle of the chain reads its group and `close` at `b`, then the tail. */
  lemma SecondReads(t: string, b: nat, close: string, gap: string, end: string)
    requires close != [] && gap != [] && end != [] && LazySecond(t, b, close, gap, end).Some?
    ensures var y := LazySecond(t, b, close, gap, end).value;
            && OccursAt(t, y.0 + close, b) && NoOcc(y.0, close)
            && (exists e :: b < e && OccursAt(t, gap + y.1 + end, e)) && NoOcc(y.1, end)
  {
    ThirdReads(t, Lazy(t, b, close).value.1, gap, end);
  }

  /** The chain after `open` reads the first group, `mid`, the second group and `close` at `a`, then the tail. */
  lemma FirstReads(t: string, a: nat, mid: string, close: string, gap: string, end: string)
    requires mid != [] && close != [] && gap != [] && end != [] && LazyFirst(t, a, mid, close, gap, end).Some?
    ensures var g := LazyFirst(t, a, mid, close, gap, end).value;
            && OccursAt(t, g.first + mid + g.second + close, a)
            && (exists e :: a < e && OccursAt(t, gap + g.third + end, e))
            && NoOcc(g.first, mid) && NoOcc(g.second, close) && NoOcc(g.third, end)
  {
    var x := Lazy(t, a, mid).value;
    SecondReads(t, x.1, close, gap, end);
    var y := LazySecond(t, x.1, close, gap, end).value;
    OccursJoin(t, x.0 + mid, y.0 + close, a);
    assert x.0 + mid + (y.0 + close) == x.0 + mid + y.0 + close;
  }

  /**
   * A match of the chain: from the first `open` on, the text reads `open`,
   * the first group, `mid`, the second group and `close`, and somewhere
   * after that `gap`, the third group and `end`; each group holds no
   * occurrence of the literal after it.
   */
  lemma LazyMatch(t: string, from: nat, open: string, mid: string, close: string, gap: string, end: string)
    requires open != [] && mid != [] && close != [] && gap != [] && end != []
    requires LazyGroups(t, from, open, mid, close, gap, end).Some?
    ensures var g, p := LazyGroups(t, from, open, mid, close, gap, end).value, FindFrom(t, open, from);
            && from <= p
            && OccursAt(t, open + g.first + mid + g.second + close, p)
            && (exists e :: p < e && OccursAt(t, gap + g.third + end, e))
            && NoOcc(g.first, mid) && NoOcc(g.second, close) && NoOcc(g.third, end)
  {
    var p := FindFrom(t, open, from);
    var g := LazyGroups(t, from, open, mid, close, gap, end).value;
    GroupsAfterOpen(t, from, open, mid, close, gap, end);
    FindFound(t, open, from);
    FirstReads(t, p + |open|, mid, close, gap, end);
    OccursJoinChain(t, open, g.first, mid, g.second, close, p);
  }

  /** The chain reads on just past the first `open`. */
  lemma GroupsAfterOpen(t: string, from: nat, open: string, mid: string, close: string, gap: string, end: string)
    requires open != [] && mid != [] && close != [] && gap != [] && end != []
    requires LazyGroups(t, from, open, mid, close, gap, end).Some?
    ensures LazyGroups(t, from, open, mid, close, gap, end) == LazyFirst(t, FindFrom(t, open, from) + |open|, mid, close, gap, end)
  {
  }

  /** `thumbnail.jpg"` at `k`, its `.` standing for any character. */
  predicate ThumbFileAt(t: string, k: nat)
    requires k + 14 <= |t|
  {
    t[k..k + 9] == "thumbnail" && t[k + 10..k + 14] == "jpg\""
  }

  /** The first place at or after `from` where `thumbnail.jpg"` matches, or -1. */
  function FindThumbFile(t: string, from: nat): (r: int)
    ensures r == -1 || (from <= r && r + 14 <= |t| && ThumbFileAt(t, r))
    decreases |t| - from
  {
    if from + 14 > |t| then -1
    else if ThumbFileAt(t, from) then from
    else FindThumbFile(t, from + 1)
  }

  /** No match of `thumbnail.jpg"` starts between `from` and the place found (or the end, when none is found). */
  lemma {:induction false} FindThumbFileFirst(t: string, from: nat, k: nat)
    requires from <= k && k + 14 <= |t|
    requires FindThumbFile(t, from) == -1 || k < FindThumbFile(t, from)
    ensures !ThumbFileAt(t, k)
    decreases k - from
  {
    if k > from {
      FindThumbFileFirst(t, from + 1, k);
    }
  }

  const ImgOpen: string := "<img"
  const SrcOpen: string := "src=\""

  /**
   * `re.search(r'<img.*?src="(.*?)thumbnail.jpg".*?>.*?<a href="(.*?)">(.*?)</a><p.*?>(.*?)</p>', t, re.DOTALL)`,
   * by the same chain of first occurrences from the first `<img`; its first
   * three groups are the thumbnail's address without the file name, the
   * link and the name.
   */
  function ThumbGroups(t: string): (r: Option<Groups>)
    ensures r.Some? ==> exists j ::
              && ThumbSrcAt(t, j, r.value.first)
              && (exists p :: j < p && OccursAt(t, LinkOpen + r.value.second + AnchorMid + r.value.third + AnchorEnd, p))
    ensures r.Some? ==> NoOcc(r.value.second, AnchorMid) && NoOcc(r.value.third, AnchorEnd)
  {
    match ThumbStop(t)
    case None => None
    case Some(x) =>
      match AnchorGroups(t, x.1)
      case None => None
      case Some(g) =>
        ThumbMatchReads(t, x, g);
        Some(Groups(x.0, g.first, g.second))
  }

  /** A thumbnail match reads the address after a `src="`, and later the link and the name. */
  lemma ThumbMatchReads(t: string, x: (string, nat), g: Groups)
    requires ThumbStop(t) == Some(x) && AnchorGroups(t, x.1) == Some(g)
    ensures exists j ::
              && ThumbSrcAt(t, j, x.0)
              && (exists p :: j < p && OccursAt(t, LinkOpen + g.first + AnchorMid + g.second + AnchorEnd, p))
    ensures NoOcc(g.first, AnchorMid) && NoOcc(g.second, AnchorEnd)
  {
    var j := ThumbSrcBefore(t, x);
    var p := FindFrom(t, LinkOpen, x.1);
    assert OccursAt(t, LinkOpen + g.first + AnchorMid + g.second + AnchorEnd, p);
  }

  /** The thumbnail address follows a `src="` that stands before the index a thumbnail match returns. */
  lemma ThumbSrcBefore(t: string, x: (string, nat)) returns (j: nat)
    requires ThumbStop(t) == Some(x)
    ensures ThumbSrcAt(t, j, x.0) && j < x.1
  {
    ThumbStopReads(t);
    j := FindFrom(t, SrcOpen, Find(t, ImgOpen) + |ImgOpen|);
  }

  /** At `j` the text reads `src="`, the address `dir` and `thumbnail.jpg"`. */
  ghost predicate ThumbSrcAt(t: string, j: int, dir: string) {
    && OccursAt(t, SrcOpen + dir, j)
    && j + |SrcOpen| + |dir| + 14 <= |t| && ThumbFileAt(t, j + |SrcOpen| + |dir|)
  }

  /** `<img.*?src="(.*?)thumbnail.jpg".*?>`: the first group, and the index just past the `>`. */
  function ThumbStop(t: string): (r: Option<(string, nat)>)
    ensures r.Some? ==> r.value.1 <= |t|
  {
    var i := Find(t, ImgOpen);
    if i < 0 then None
    else
      var j := FindFrom(t, SrcOpen, i + |ImgOpen|);
      if j < 0 then None else ThumbFrom(t, j + |SrcOpen|)
  }

  /** `(.*?)thumbnail.jpg".*?>` from `a`. */
  function ThumbFrom(t: string, a: nat): (r: Option<(string, nat)>)
    ensures r.Some? ==> r.value.1 <= |t|
  {
    var k := FindThumbFile(t, a);
    if k < 0 then None
    else
      var m := FindFrom(t, ">", k + 14);
      if m < 0 then None else Some((t[a..k], m + 1))
  }

  /** From `a` the text reads the group, then `thumbnail.jpg"`, then up to a `>` that ends just before the index returned. */
  lemma ThumbFromReads(t: string, a: nat)
    requires ThumbFrom(t, a).Some?
    ensures var x := ThumbFrom(t, a).value;
            && a + |x.0| + 14 <= x.1 && OccursAt(t, x.0, a) && ThumbFileAt(t, a + |x.0|) && t[x.1 - 1] == '>'
  {
    var k := FindThumbFile(t, a);
    var m := FindFrom(t, ">", k + 14);
    FindFound(t, ">", k + 14);
    assert t[m..m + 1] == ">";
  }

  /** The thumbnail group is the text after a `src="` that runs up to `thumbnail.jpg"`, and the tag closes before the index returned. */
  lemma ThumbStopReads(t: string)
    requires ThumbStop(t).Some?
    ensures var x, j := ThumbStop(t).value, FindFrom(t, SrcOpen, Find(t, ImgOpen) + |ImgOpen|);
            && j >= 0 && OccursAt(t, SrcOpen + x.0, j) && j + |SrcOpen| + |x.0| + 14 <= x.1 && ThumbFileAt(t, j + |SrcOpen| + |x.0|)
            && t[x.1 - 1] == '>'
  {
    var j := FindFrom(t, SrcOpen, Find(t, ImgOpen) + |ImgOpen|);
    ThumbStopFrom(t);
    FindFound(t, SrcOpen, Find(t, ImgOpen) + |ImgOpen|);
    ThumbAfterSrc(t, j);
    var g, m := ThumbFrom(t, j + |SrcOpen|).value.0, ThumbFrom(t, j + |SrcOpen|).value.1;
    assert ThumbStop(t).value.0 == g && ThumbStop(t).value.1 == m;
  }

  /** A thumbnail match reads on from the first `src="` after the first `<img`. */
  lemma ThumbStopFrom(t: string)
    ensures var j := FindFrom(t, SrcOpen, Find(t, ImgOpen) + |ImgOpen|);
            ThumbStop(t).Some? ==> j >= 0 && ThumbStop(t) == ThumbFrom(t, j + |SrcOpen|)
  {
  }

  /** After a `src="` at `j`, the group and `thumbnail.jpg"` follow it, and the tag closes before the index returned. */
  lemma ThumbAfterSrc(t: string, j: nat)
    requires OccursAt(t, SrcOpen, j) && ThumbFrom(t, j + |SrcOpen|).Some?
    ensures var x := ThumbFrom(t, j + |SrcOpen|).value;
            && OccursAt(t, SrcOpen + x.0, j) && j + |SrcOpen| + |x.0| + 14 <= x.1 && ThumbFileAt(t, j + |SrcOpen| + |x.0|)
            && t[x.1 - 1] == '>'
  {
    ThumbFromReads(t, j + |SrcOpen|);
    OccursJoin(t, SrcOpen, ThumbFrom(t, j + |SrcOpen|).value.0, j);
  }

  /** `f'- [**{name}**]({link}) - {desc}\n\n'` with `link, name, desc` the first three groups, in order. */
  function BulletOf(g: Groups): string {
    "- [**" + g.second + "**](" + g.first + ") - " + g.third + "\n\n"
  }

  /** The bullet of one item: the thumbnail pattern first, then the plain one, else nothing. */
  function ItemBullet(item: string): (r: string)
    ensures r == "" <==> ThumbGroups(Strip(item)).None? && AnchorGroups(Strip(item), 0).None?
  {
    var t := Strip(item);
    match ThumbGroups(t)
    case Some(g) => BulletOf(g)
    case None =>
      match AnchorGroups(t, 0)
      case Some(g) => BulletOf(g)
      case None => ""
  }

  /**
   * An item that matches the thumbnail pattern is listed with its groups
   * read in the plain pattern's order: the bold text is the anchor's link,
   * the link is the thumbnail's folder, the description is the anchor's
   * name, and the paragraph text is dropped.
   */
  lemma ThumbItemMislabel(item: string)
    requires ThumbGroups(Strip(item)).Some?
    ensures exists m: nat :: AnchorGroups(Strip(item), m).Some? &&
              var a := AnchorGroups(Strip(item), m).value;
              ItemBullet(item) == "- [**" + a.first + "**](" + ThumbGroups(Strip(item)).value.first + ") - " + a.second + "\n\n"
  {
    var t := Strip(item);
    var m := ThumbStop(t).value.1;
    assert AnchorGroups(t, m).Some?;
  }

  /** An item that matches only the plain pattern is listed as `- [**name**](link) - description`. */
  lemma AnchorItemBullet(item: string)
    requires ThumbGroups(Strip(item)).None? && AnchorGroups(Strip(item), 0).Some?
    ensures var a := AnchorGroups(Strip(item), 0).value;
            ItemBullet(item) == "- [**" + a.second + "**](" + a.first + ") - " + a.third + "\n\n"
  {
  }

  /** The bullets of the items that match, in their order. */
  function MdBullets(items: seq<string>): string {
    ConcatMap(items, ItemBullet)
  }

  /** `md_list` for a `slides_html`. */
  function MdList(slidesHtml: string): string {
    MdBullets(LiItems(slidesHtml))
  }

  /** The loop body's two searches on one stripped item: the thumbnail pattern, then the plain one. */
  method SearchItem(item: string) returns (found: Option<Groups>)
    ensures found.Some? ==> ItemBullet(item) == BulletOf(found.value)
    ensures found.None? ==> ItemBullet(item) == ""
  {
    var text := Strip(item);
    found := ThumbGroups(text);
    if found.None? {
      found := AnchorGroups(text, 0);
    }
  }

  /** `md_list` for a `slides_html`: the loop over its items. */
  method ReadmeList(slidesHtml: string) returns (md: string)
    ensures md == MdList(slidesHtml)
  {
    var items := LiItems(slidesHtml);
    md := "";
    var i := 0;
    while i < |items|
      invariant 0 <= i <= |items|
      invariant md == MdBullets(items[..i])
    {
      ConcatMapPrefix(items, i, ItemBullet);
      var found := SearchItem(items[i]);
      if found.Some? {
        md := md + BulletOf(found.value);
      }
      i := i + 1;
    }
    assert items[..i] == items;
  }

  // ---------------------------------------------------------------- the splice

  /** `list_content`: the region, or its default empty text when a marker is missing. */
  function ListContent(content: string): string {
    match ListRegion(content)
    case None => ""
    case Some(region) => region
  }

  /** `updated_list`: the old list without trailing blanks, if there was one, then the new entries, one per line. */
  function UpdatedList(content: string, slides: seq<string>): (r: string)
    ensures ListContent(content) != [] ==> StartsWith(r, RStrip(ListContent(content)) + ItemSep)
    ensures ListContent(content) == [] ==> r == ItemSep + Join(ItemSep, slides) + ListTail
    ensures |ListTail| <= |r| && r[|r| - |ListTail|..] == ListTail
  {
    var listContent := ListContent(content);
    if listContent != [] then ListText(RStrip(listContent), slides)
    else assert "" + ItemSep == ItemSep; ListText("", slides)
  }

  /** `<ul id="sortable" class="grid grid-cols-1 sm:grid-cols-2 lg:grid-cols-3 gap-10">`, for a page without a list close. */
  const FreshListOpen: string := SortableStart + " class=\"grid grid-cols-1" + " sm:grid-cols-2" + " lg:grid-cols-3 gap-10\">"

  /** `updated_html`: the new list in place of the old region, or a new list at the end of a page without a list close. */
  function Spliced(content: string, slides: seq<string>): (r: string)
    ensures ListEnd(content) != -1 ==>
              && StartsWith(r, content[..ListOffset(content)])
              && OccursAt(r, UpdatedList(content, slides), ListOffset(content))
              && |content| - ListEnd(content) <= |r| && r[|r| - (|content| - ListEnd(content))..] == content[ListEnd(content)..]
    ensures ListEnd(content) == -1 ==>
              && StartsWith(r, content + FreshListOpen + ItemSep)
              && |UlClose| <= |r| && r[|r| - |UlClose|..] == UlClose
  {
    var end := ListEnd(content);
    var updated := UpdatedList(content, slides);
    if end != -1 then
      var front, back := Slice(content, 0, ListOffset(content)), Slice(content, end, |content|);
      Parts3(front, updated, back);
      front + updated + back
    else
      Appended(content, FreshListOpen, ItemSep, updated, ListTail, UlClose);
      Parts3(content + FreshListOpen + ItemSep, updated + ListTail, UlClose);
      content + FreshListOpen + ItemSep + updated + ListTail + UlClose
  }

  /** With both markers the splice keeps the text up to the offset and the text from the list close. */
  lemma SpliceAtRegion(content: string, slides: seq<string>)
    requires ListStart(content) != -1 && ListEnd(content) != -1
    ensures Spliced(content, slides) == content[..ListOffset(content)] + UpdatedList(content, slides) + content[ListEnd(content)..]
  {
    var off, end := ListOffset(content), ListEnd(content);
    assert Slice(content, 0, off) == content[..off];
    assert Slice(content, end, |content|) == content[end..];
  }

  /** Without a list close the whole page is kept, and a new list follows it. */
  lemma SpliceWithoutClose(content: string, slides: seq<string>)
    requires ListEnd(content) == -1
    ensures Spliced(content, slides) == content + (FreshListOpen + ItemSep + UpdatedList(content, slides) + ListTail + UlClose)
  {
    var u := UpdatedList(content, slides);
    Appended(content, FreshListOpen, ItemSep, u, ListTail, UlClose);
  }

  /** Regroupings of a page with a list appended behind it. */
  lemma Appended(a: string, b: string, c: string, d: string, e: string, f: string)
    ensures a + b + c + d + e + f == (a + b + c) + (d + e) + f
    ensures a + b + c + d + e + f == a + (b + c + d + e + f)
  {
  }

  /**
   * With a list close but no marker, only the text from the list close is
   * kept: the offset defaults to 0, so the text before it is dropped.
   */
  lemma SpliceWithoutMarker(content: string, slides: seq<string>)
    requires ListStart(content) == -1 && ListEnd(content) != -1
    ensures Spliced(content, slides) == UpdatedList(content, slides) + content[ListEnd(content)..]
  {
    var u := UpdatedList(content, slides);
    assert Slice(content, 0, 0) == [];
    assert [] + u == u;
  }

  /** The repositories an auto-update adds, for the page `content`. */
  function AddedNames(content: string, user: string, names: seq<string>, readmes: map<string, string>): seq<string> {
    NewNames(GalleryNames(names), ExistingLinks(content, user), readmes)
  }

  /** The page after the auto-update route; `names` is the GitHub listing of the user's repositories. */
  function AutoUpdated(content: string, user: string, names: seq<string>, readmes: map<string, string>, thumbs: set<string>): string {
    var slides := NewSlides(user, AddedNames(content, user, names, readmes), readmes, thumbs);
    if slides == [] then content else Spliced(content, slides)
  }

  /** The first part of the auto-update route: `start_content`, `list_content` and `existing_links`. */
  method ReadList(content: string, user: string) returns (startContent: nat, listContent: string, existing: set<string>)
    ensures startContent == ListOffset(content)
    ensures listContent == ListContent(content)
    ensures existing == ExistingLinks(content, user)
  {
    var start := Find(content, SortableStart);
    var end := Find(content, UlClose);
    startContent := 0;
    listContent := "";
    existing := {};
    if start != -1 && end != -1 {
      startContent := FindFrom(content, ">", start) + 1;
      listContent := Slice(content, startContent, end);
      existing := CollectLinks(LiElements(listContent), user);
    }
  }

  /**
   * The auto-update route: the page it writes and the README it publishes,
   * if any; `stamp` is the formatted time of the update.
   */
  method AutoUpdate(content: string, user: string, names: seq<string>, readmes: map<string, string>, thumbs: set<string>, stamp: string)
    returns (html: string, readme: Option<string>)
    ensures html == AutoUpdated(content, user, names, readmes, thumbs)
    ensures var slides := NewSlides(user, AddedNames(content, user, names, readmes), readmes, thumbs);
            readme == if slides == [] then None else Some(ReadmeDocument(MdList(UpdatedList(content, slides)), stamp))
  {
    var repos := GalleryNames(names);
    var end := Find(content, UlClose);
    var startContent, listContent, existing := ReadList(content, user);
    var newSlides := CollectNewSlides(user, repos, existing, readmes, thumbs);
    if newSlides != [] {
      var currentListContent := if listContent != [] then RStrip(listContent) else "";
      var updatedList := currentListContent + ItemSep + Join(ItemSep, newSlides) + ListTail;
      assert updatedList == ListText(currentListContent, newSlides);
      assert updatedList == UpdatedList(content, newSlides);
      if end != -1 {
        html := Slice(content, 0, startContent) + updatedList + Slice(content, end, |content|);
      } else {
        html := content + FreshListOpen + ItemSep + updatedList + ListTail + UlClose;
      }
      var md := ReadmeList(updatedList);
      readme := Some(ReadmeDocument(md, stamp));
    } else {
      html := content;
      readme := None;
    }
  }
}
