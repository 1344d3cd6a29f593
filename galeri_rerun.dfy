/**
 * What the auto-update of the second editor app (`galeri-update.py`) leaves
 * behind. Its styled entries open with `<li class=…>`, not with `<li>`, so
 * the item scan does not see them: the page it writes keeps its list where
 * the next run looks for it, but that list holds only the old items, the
 * README it publishes lists only the old items, and a second run over the
 * same listing adds the same repositories again. The entries are built from
 * README texts without markup and from GitHub names, whose characters
 * cannot start a tag.
 */
module GaleriRerun {
  import opened Opt
  import opened PyStr
  import opened Naming
  import opened Markup
  import opened GaleriEditor

  // ---------------------------------------------------------------- literal facts

  /** No tag of an entry holds a `<` past its first character. */
  lemma TagsMissHead()
    ensures '<' !in ItemTag[1..] && '<' !in LinkOpen[1..] && '<' !in DivOpen[1..] && '<' !in ImgTag[1..]
    ensures '<' !in H2Tag[1..] && '<' !in H2Close[1..] && '<' !in PTag[1..] && '<' !in PClose[1..]
    ensures '<' !in DivClose[1..] && '<' !in LinkClose[1..] && '<' !in LiClose[1..]
  {
    assert ItemTag[1..] == "li " && LinkOpen[1..] == "a href=\"" && DivOpen[1..] == "div>" && ImgTag[1..] == "img src=\"";
    assert H2Tag[1..] == "h2 " && H2Close[1..] == "/h2>" && PTag[1..] == "p " && PClose[1..] == "/p>";
    assert DivClose[1..] == "/div>" && LinkClose[1..] == "/a>" && LiClose[1..] == "/li>";
  }

  /** No tag of an entry can start `<li>`. */
  lemma TagsDepartItem()
    ensures Departs(ItemTag, LiOpen) && Departs(LinkOpen, LiOpen) && Departs(DivOpen, LiOpen) && Departs(ImgTag, LiOpen)
    ensures Departs(H2Tag, LiOpen) && Departs(H2Close, LiOpen) && Departs(PTag, LiOpen) && Departs(PClose, LiOpen)
    ensures Departs(DivClose, LiOpen) && Departs(LinkClose, LiOpen) && Departs(LiClose, LiOpen)
  {
  }

  /** No tag of an entry can start `</ul>`. */
  lemma TagsDepartList()
    ensures Departs(ItemTag, UlClose) && Departs(LinkOpen, UlClose) && Departs(DivOpen, UlClose) && Departs(ImgTag, UlClose)
    ensures Departs(H2Tag, UlClose) && Departs(H2Close, UlClose) && Departs(PTag, UlClose) && Departs(PClose, UlClose)
    ensures Departs(DivClose, UlClose) && Departs(LinkClose, UlClose) && Departs(LiClose, UlClose)
  {
  }

  /** The attribute texts of an entry hold no markup. */
  lemma PiecesPlain()
    ensures Plain(ItemClass) && Plain(LinkClass) && Plain(H2Class) && Plain(PClass) && Plain(ImgAttrs)
    ensures Plain("thumbnail.jpg") && Plain("No description available")
  {
    ItemClassPlain();
    HeadingClassPlain();
    ImgAttrsPlain();
  }

  lemma ItemClassPlain()
    ensures Plain(ItemClass) && Plain(LinkClass)
  {
    assert Plain("class=\"gallery-item") && Plain(" bg-white p-6") && Plain(" rounded-xl shadow-lg\">");
  }

  lemma HeadingClassPlain()
    ensures Plain(H2Class) && Plain(PClass)
  {
    assert Plain("class=\"text-xl") && Plain(" font-semibold") && Plain(" text-blue-600") && Plain(" hover:underline\">");
    assert Plain("class=\"text-gray-600") && Plain(" mt-2 text-sm\">");
  }

  lemma ImgAttrsPlain()
    ensures Plain(ImgAttrs) && Plain("thumbnail.jpg") && Plain("No description available")
  {
    assert Plain("\" alt=\"Thumbnail\"") && Plain(" class=\"w-full h-64") && Plain(" object-contain") && Plain(" rounded-lg mb-4\">");
  }

  // ---------------------------------------------------------------- the text of an entry

  /** A README without markup gives a slide name without markup. */
  lemma TitlePlain(readme: string, repo: string)
    requires Plain(readme) && Plain(repo)
    ensures Plain(Title(readme, repo))
  {
    SplitFree(readme, "\n", '<');
  }

  /** A README without markup gives a description without markup. */
  lemma DescriptionPlain(readme: string, repo: string)
    requires Plain(readme)
    ensures Plain(DescriptionText(readme, repo))
  {
    var lines := Split(readme, "\n");
    SplitFree(readme, "\n", '<');
    var name := SlideName(lines, repo);
    var later := Later(lines);
    forall k | 0 <= k < |later| && DescribedBy(name)(later[k]) ensures Plain(CleanLine(later[k])) {
      assert later[k] == lines[k + 1];
      CleanLineKeepsOut(later[k], '<');
    }
    FilterMapAll(later, DescribedBy(name), CleanLine, Plain);
    var description := DescriptionLines(lines, name);
    if description != [] {
      JoinFree(" ", description, '<');
    } else {
      PiecesPlain();
    }
  }

  /** The closing part of an entry, from the heading on, holds neither pattern. */
  lemma TailFree(name: string, desc: string, pat: string)
    requires pat == LiOpen || pat == UlClose
    requires Plain(name) && Plain(desc)
    ensures NoOcc(H2Tag + (H2Class + (name + (H2Close + (PTag + (PClass + (desc + (PClose + (DivClose + (LinkClose + LiClose))))))))), pat)
  {
    TagsMissHead();
    TagsDepartItem();
    TagsDepartList();
    PiecesPlain();
    NoOccEmpty(pat);
    NoOccTagFront(LiClose, [], pat);
    assert LiClose + [] == LiClose;
    NoOccTagFront(LinkClose, LiClose, pat);
    NoOccTagFront(DivClose, LinkClose + LiClose, pat);
    NoOccTagFront(PClose, DivClose + (LinkClose + LiClose), pat);
    var r := PClose + (DivClose + (LinkClose + LiClose));
    NoOccPlainFront(desc, r, pat);
    NoOccPlainFront(PClass, desc + r, pat);
    NoOccTagFront(PTag, PClass + (desc + r), pat);
    NoOccTagFront(H2Close, PTag + (PClass + (desc + r)), pat);
    NoOccPlainFront(name, H2Close + (PTag + (PClass + (desc + r))), pat);
    NoOccPlainFront(H2Class, name + (H2Close + (PTag + (PClass + (desc + r)))), pat);
    NoOccTagFront(H2Tag, H2Class + (name + (H2Close + (PTag + (PClass + (desc + r))))), pat);
  }

  /** The thumbnail holds neither pattern. */
  lemma ThumbFree(user: string, repo: string, thumb: bool, rest: string, pat: string)
    requires pat == LiOpen || pat == UlClose
    requires Plain(user) && Plain(repo) && NoOcc(rest, pat)
    ensures NoOcc(Thumbnail(user, repo, thumb) + rest, pat)
  {
    if thumb {
      TagsMissHead();
      TagsDepartItem();
      TagsDepartList();
      PiecesPlain();
      PagesLinkPlain(user, repo);
      var link := PagesLink(user, repo);
      NoOccPlainFront(ImgAttrs, rest, pat);
      NoOccPlainFront(link + "thumbnail.jpg", ImgAttrs + rest, pat);
      NoOccTagFront(ImgTag, (link + "thumbnail.jpg") + (ImgAttrs + rest), pat);
      Reassoc(ImgTag, link + "thumbnail.jpg", ImgAttrs, rest);
    } else {
      assert Thumbnail(user, repo, thumb) + rest == rest;
    }
  }

  lemma Reassoc(a: string, b: string, c: string, d: string)
    ensures (a + (b + c)) + d == a + (b + (c + d))
  {
  }

  /** An entry made of texts without markup holds neither pattern. */
  lemma EntryTextFree(user: string, repo: string, name: string, desc: string, thumb: bool, pat: string)
    requires pat == LiOpen || pat == UlClose
    requires Plain(user) && Plain(repo) && Plain(name) && Plain(desc)
    ensures NoOcc(EntryText(user, repo, name, desc, Thumbnail(user, repo, thumb)), pat)
  {
    TagsMissHead();
    TagsDepartItem();
    TagsDepartList();
    PiecesPlain();
    PagesLinkPlain(user, repo);
    var link := PagesLink(user, repo);
    var t := Thumbnail(user, repo, thumb);
    var tail := H2Tag + (H2Class + (name + (H2Close + (PTag + (PClass + (desc + (PClose + (DivClose + (LinkClose + LiClose)))))))));
    TailFree(name, desc, pat);
    ThumbFree(user, repo, thumb, tail, pat);
    NoOccTagFront(DivOpen, t + tail, pat);
    NoOccPlainFront(LinkClass, DivOpen + (t + tail), pat);
    NoOccPlainFront(link, LinkClass + (DivOpen + (t + tail)), pat);
    NoOccTagFront(LinkOpen, link + (LinkClass + (DivOpen + (t + tail))), pat);
    NoOccPlainFront(ItemClass, LinkOpen + (link + (LinkClass + (DivOpen + (t + tail)))), pat);
    NoOccTagFront(ItemTag, ItemClass + (LinkOpen + (link + (LinkClass + (DivOpen + (t + tail))))), pat);
  }

  /** A new entry opens no `<li>` item and closes no list. */
  lemma EntryFree(user: string, repo: string, readme: string, thumb: bool)
    requires Plain(user) && Plain(repo) && Plain(readme)
    ensures NoOcc(Entry(user, repo, readme, thumb), LiOpen)
    ensures NoOcc(Entry(user, repo, readme, thumb), UlClose)
  {
    TitlePlain(readme, repo);
    var name := CleanSlideName(Title(readme, repo));
    CleanNameKeepsOut(Title(readme, repo), '<');
    DescriptionPlain(readme, repo);
    var desc := DescriptionText(readme, repo);
    EntryTextFree(user, repo, name, desc, thumb, LiOpen);
    EntryTextFree(user, repo, name, desc, thumb, UlClose);
  }

  /** The new entries open no item and close no list. */
  lemma NewSlidesFree(user: string, names: seq<string>, readmes: map<string, string>, thumbs: set<string>)
    requires forall x :: x in names ==> x in readmes && Plain(readmes[x]) && Plain(x)
    requires Plain(user)
    ensures forall k :: 0 <= k < |names| ==>
              NoOcc(NewSlides(user, names, readmes, thumbs)[k], LiOpen) && NoOcc(NewSlides(user, names, readmes, thumbs)[k], UlClose)
  {
    forall k | 0 <= k < |names|
      ensures NoOcc(NewSlides(user, names, readmes, thumbs)[k], LiOpen) && NoOcc(NewSlides(user, names, readmes, thumbs)[k], UlClose)
    {
      assert names[k] in names;
      EntryFree(user, names[k], readmes[names[k]], names[k] in thumbs);
    }
  }

  // ---------------------------------------------------------------- the spliced list

  /** The old list as the update keeps it: the region without trailing blanks. */
  function Current(content: string): string {
    var listContent := ListContent(content);
    if listContent != [] then RStrip(listContent) else ""
  }

  /** A closed region keeps its items, and stays closed, without its trailing blanks. */
  lemma CurrentItems(content: string)
    requires Closed(ListContent(content))
    ensures LiItems(Current(content)) == LiItems(ListContent(content)) && Closed(Current(content))
  {
    var listContent := ListContent(content);
    if listContent != [] {
      RStripInert(listContent);
    }
  }

  /**
   * The new entries add no item to the list: the updated list holds the
   * items of the old one and nothing else, whatever entries were added.
   */
  lemma UpdatedItems(content: string, slides: seq<string>)
    requires Closed(ListContent(content))
    requires forall k :: 0 <= k < |slides| ==> NoOcc(slides[k], LiOpen)
    ensures LiItems(UpdatedList(content, slides)) == LiItems(ListContent(content))
  {
    CurrentItems(content);
    ListTextNoNewItems(Current(content), slides);
  }

  /** The page's own list, as the region of a well-formed page. */
  predicate Listed(content: string) {
    ListStart(content) != -1 && ListStart(content) < ListEnd(content) && ListOffset(content) <= ListEnd(content)
  }

  /** The updated list of such a page closes no list, and it ends with a blank. */
  lemma UpdatedListFree(content: string, slides: seq<string>)
    requires Listed(content)
    requires forall k :: 0 <= k < |slides| ==> NoOcc(slides[k], UlClose)
    ensures NoOcc(UpdatedList(content, slides), UlClose)
    ensures |UpdatedList(content, slides)| > 0 && UpdatedList(content, slides)[|UpdatedList(content, slides)| - 1] == ' '
  {
    RegionAfterTag(content);
    var listContent := ListContent(content);
    var current := Current(content);
    if listContent != [] {
      NoOccSlice(listContent, UlClose, 0, |current|);
      assert listContent[0..|current|] == current;
    } else {
      NoOccEmpty(UlClose);
    }
    ListTextFree(current, slides);
  }

  /** A marker first found in the front is found there in the whole page. */
  lemma MarkerOfParts(front: string, rest: string, start: nat)
    requires Find(front, SortableStart) == start
    ensures ListStart(front + rest) == start
  {
    FindPrefix(front, rest, SortableStart, 0);
  }

  /** A `>` first found in the front after the marker is found there in the whole page. */
  lemma TagOfParts(front: string, rest: string, start: nat)
    requires front != [] && FindFrom(front, ">", start) == |front| - 1
    ensures FindFrom(front + rest, ">", start) == |front| - 1
  {
    FindPrefix(front, rest, ">", start);
  }

  /**
   * A page made of a front that holds the marker, ends with the first `>`
   * after it and closes no list, a list text that closes none, and a back
   * that starts with a list close: the region of that page is the list text.
   */
  lemma RegionOfParts(front: string, u: string, back: string, start: nat)
    requires Find(front, SortableStart) == start && FindFrom(front, ">", start) == |front| - 1
    requires Find(front, UlClose) == -1
    requires NoOcc(u, UlClose) && u != [] && u[|u| - 1] == ' '
    requires OccursAt(back, UlClose, 0)
    ensures ListStart(front + (u + back)) == start
    ensures ListEnd(front + (u + back)) == |front| + |u|
    ensures ListOffset(front + (u + back)) == |front|
    ensures ListRegion(front + (u + back)) == Some(u)
  {
    FindFromFirst(front, ">", start);
    assert front[|front| - 1..|front|] == ">";
    MarkerOfParts(front, u + back, start);
    TagOfParts(front, u + back, start);
    CloseAfterList(front, u, back);
    var page := front + (u + back);
    assert page[|front|..|front| + |u|] == u;
  }

  /** What the page offers up to the offset: the marker, the first `>` after it, and no list close. */
  lemma FrontFacts(content: string)
    requires Listed(content)
    ensures var start, offset := ListStart(content), ListOffset(content);
            && Find(content[..offset], SortableStart) == start
            && FindFrom(content[..offset], ">", start) == offset - 1
            && Find(content[..offset], UlClose) == -1
  {
    var start, end, offset := ListStart(content), ListEnd(content), ListOffset(content);
    OffsetAfterTag(content);
    FindFromFirst(content, SortableStart, 0);
    FindInPrefix(content, SortableStart, 0, offset);
    FindInPrefix(content, ">", start, offset);
    FindInPrefix(content, UlClose, 0, offset);
  }

  /**
   * The page written finds its marker where it was, the same offset, and
   * its first list close right after the updated list: the next run reads
   * exactly that list.
   */
  lemma SplicedRegion(content: string, slides: seq<string>)
    requires Listed(content)
    requires forall k :: 0 <= k < |slides| ==> NoOcc(slides[k], UlClose)
    ensures ListStart(Spliced(content, slides)) == ListStart(content)
    ensures ListOffset(Spliced(content, slides)) == ListOffset(content)
    ensures ListEnd(Spliced(content, slides)) == ListOffset(content) + |UpdatedList(content, slides)|
    ensures ListRegion(Spliced(content, slides)) == Some(UpdatedList(content, slides))
  {
    var start, end, offset := ListStart(content), ListEnd(content), ListOffset(content);
    FrontFacts(content);
    UpdatedListFree(content, slides);
    BackFacts(content);
    SpliceParts(content, slides);
    RegionOfParts(content[..offset], UpdatedList(content, slides), content[end..], start);
  }

  /** The page from the list close on starts with that close. */
  lemma BackFacts(content: string)
    requires Listed(content)
    ensures OccursAt(content[ListEnd(content)..], UlClose, 0)
  {
    var end := ListEnd(content);
    FindFromFirst(content, UlClose, 0);
    assert content[end..][..|UlClose|] == content[end..end + |UlClose|];
  }

  /** The page written is the front, the updated list and the back. */
  lemma SpliceParts(content: string, slides: seq<string>)
    requires Listed(content)
    ensures Spliced(content, slides) == content[..ListOffset(content)] + (UpdatedList(content, slides) + content[ListEnd(content)..])
  {
    SpliceAtRegion(content, slides);
  }

  // ---------------------------------------------------------------- one run, then another

  /** The repositories an update adds can be entries: each has a README, and no markup. */
  lemma AddedSafe(content: string, user: string, names: seq<string>, readmes: map<string, string>)
    requires SafeListing(user, names, readmes)
    ensures Plain(user)
    ensures forall x :: x in AddedNames(content, user, names, readmes) ==> x in readmes && Plain(readmes[x]) && Plain(x)
  {
    NameCharsSafe(user);
    forall x | x in AddedNames(content, user, names, readmes) ensures x in readmes && Plain(readmes[x]) && Plain(x) {
      NameCharsSafe(x);
    }
  }

  /**
   * The README published after an update lists the items that were on the
   * page and none of the added entries.
   */
  lemma ReadmeOmitsNewEntries(content: string, user: string, names: seq<string>, readmes: map<string, string>, thumbs: set<string>)
    requires Closed(ListContent(content))
    requires SafeListing(user, names, readmes)
    ensures var added := AddedNames(content, user, names, readmes);
            MdList(UpdatedList(content, NewSlides(user, added, readmes, thumbs))) == MdBullets(LiItems(ListContent(content)))
  {
    var added := AddedNames(content, user, names, readmes);
    AddedSafe(content, user, names, readmes);
    NewSlidesFree(user, added, readmes, thumbs);
    UpdatedItems(content, NewSlides(user, added, readmes, thumbs));
  }

  /**
   * When the update adds entries to a well-formed page whose list is
   * closed, the page it writes has its list where the next run looks, that
   * list holds the same items as before, and the page links the same
   * repositories as before: the next run over the same listing adds the
   * same repositories again.
   */
  lemma RerunAddsAgain(content: string, user: string, names: seq<string>, readmes: map<string, string>, thumbs: set<string>)
    requires Listed(content) && Closed(ListContent(content))
    requires SafeListing(user, names, readmes)
    requires AddedNames(content, user, names, readmes) != []
    ensures var once := AutoUpdated(content, user, names, readmes, thumbs);
            && Listed(once)
            && LiItems(ListContent(once)) == LiItems(ListContent(content))
            && ExistingLinks(once, user) == ExistingLinks(content, user)
            && AddedNames(once, user, names, readmes) == AddedNames(content, user, names, readmes)
  {
    var slides := NewSlides(user, AddedNames(content, user, names, readmes), readmes, thumbs);
    OnceIsSpliced(content, user, names, readmes, thumbs);
    SplicedItems(content, user, slides);
  }

  /** A splice keeps a well-formed page well-formed, with the same items and the same links. */
  lemma SplicedItems(content: string, user: string, slides: seq<string>)
    requires Listed(content) && Closed(ListContent(content))
    requires forall k :: 0 <= k < |slides| ==> NoOcc(slides[k], LiOpen) && NoOcc(slides[k], UlClose)
    ensures Listed(Spliced(content, slides))
    ensures LiItems(ListContent(Spliced(content, slides))) == LiItems(ListContent(content))
    ensures ExistingLinks(Spliced(content, slides), user) == ExistingLinks(content, user)
  {
    SplicedListed(content, slides);
    UpdatedItems(content, slides);
    LinksOfContent(content, user);
    LinksOfContent(Spliced(content, slides), user);
  }

  /** The links of a well-formed page are those of the items of its region. */
  lemma LinksOfContent(content: string, user: string)
    requires Listed(content)
    ensures ExistingLinks(content, user) == LinkSet(LiElements(ListContent(content)), user)
  {
    RegionAfterTag(content);
  }

  /** With entries to add, the page written is the splice of those entries, none of which opens an item or closes a list. */
  lemma OnceIsSpliced(content: string, user: string, names: seq<string>, readmes: map<string, string>, thumbs: set<string>)
    requires SafeListing(user, names, readmes)
    requires AddedNames(content, user, names, readmes) != []
    ensures var slides := NewSlides(user, AddedNames(content, user, names, readmes), readmes, thumbs);
            && AutoUpdated(content, user, names, readmes, thumbs) == Spliced(content, slides)
            && (forall k :: 0 <= k < |slides| ==> NoOcc(slides[k], LiOpen) && NoOcc(slides[k], UlClose))
  {
    var added := AddedNames(content, user, names, readmes);
    AddedSafe(content, user, names, readmes);
    NewSlidesFree(user, added, readmes, thumbs);
    var slides := NewSlides(user, added, readmes, thumbs);
    assert |slides| == |added|;
  }

  /** The spliced page is well-formed again, and its region is the updated list. */
  lemma SplicedListed(content: string, slides: seq<string>)
    requires Listed(content)
    requires forall k :: 0 <= k < |slides| ==> NoOcc(slides[k], UlClose)
    ensures Listed(Spliced(content, slides))
    ensures ListContent(Spliced(content, slides)) == UpdatedList(content, slides)
  {
    SplicedRegion(content, slides);
    OffsetAfterTag(content);
  }
}
