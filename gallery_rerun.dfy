/**
 * What the auto-update of the gallery editor app (`gallery_update.py`)
 * leaves behind: the page it writes has its list where the next run looks
 * for it, that list holds the old items followed by the new ones, the new
 * items link exactly the repositories that were added, and so a second run
 * over the same listing adds nothing. The entries are built from README
 * texts without markup and from GitHub names, whose characters cannot
 * start a tag, a quote or a path.
 */
module GalleryRerun {
  import opened Opt
  import opened PyStr
  import opened Naming
  import opened Markup
  import opened GalleryEditor

  // ---------------------------------------------------------------- literal facts

  /** The tags an entry is made of can start neither closing tag. */
  lemma EntryTagsDepart(pat: string)
    requires pat == LiClose || pat == UlClose
    ensures pat != [] && pat[0] == '<'
    ensures Departs("<a href=\"", pat) && Departs("</a> - ", pat) && Departs("<img src=\"", pat)
    ensures '<' !in "<a href=\""[1..] && '<' !in "</a> - "[1..] && '<' !in "<img src=\""[1..]
  {
    EntryTagsMissHead();
    if pat == LiClose {
      DepartLi();
    } else {
      DepartUl();
    }
  }

  lemma EntryTagsMissHead()
    ensures '<' !in "<a href=\""[1..] && '<' !in "</a> - "[1..] && '<' !in "<img src=\""[1..]
  {
    assert "<a href=\""[1..] == "a href=\"";
    assert "</a> - "[1..] == "/a> - ";
    assert "<img src=\""[1..] == "img src=\"";
  }

  lemma DepartLi()
    ensures Departs("<a href=\"", LiClose) && Departs("</a> - ", LiClose) && Departs("<img src=\"", LiClose)
  {
  }

  lemma DepartUl()
    ensures Departs("<a href=\"", UlClose) && Departs("</a> - ", UlClose) && Departs("<img src=\"", UlClose)
  {
  }

  lemma EntryTextPlain()
    ensures Plain("\">") && Plain(" ") && Plain("thumbnail.jpg") && Plain(ThumbAttributes)
    ensures Plain("https://") && Plain(".github.io/") && Plain("/") && Plain("No description")
  {
  }

  lemma ItemTagsDepart()
    ensures Departs(LiOpen, UlClose) && '<' !in LiOpen[1..]
    ensures Departs(LiClose, UlClose) && '<' !in LiClose[1..]
    ensures '\n' !in LiOpen[1..]
  {
  }

  // ---------------------------------------------------------------- the text of an entry

  /** A README without markup gives a title without markup. */
  lemma TitlePlain(readme: string, repo: string)
    requires Plain(readme) && Plain(repo)
    ensures Plain(Title(readme, repo))
  {
    SplitFree(readme, "\n", '<');
  }

  /** A README without markup gives a description without markup. */
  lemma DescriptionPlain(readme: string)
    requires Plain(readme)
    ensures Plain(Description(readme))
  {
    var lines := Split(readme, "\n");
    SplitFree(readme, "\n", '<');
    var later := Later(lines);
    forall k | 0 <= k < |later| && Kept(later[k]) ensures Plain(Strip(later[k])) {
      assert later[k] == lines[k + 1];
    }
    FilterMapAll(later, Kept, Strip, Plain);
    var kept := KeptLines(later);
    if kept != [] {
      JoinFree(" ", kept, '<');
    } else {
      EntryTextPlain();
    }
  }

  /** Between its tags an entry holds no closing tag. */
  lemma BodyFree(user: string, repo: string, title: string, desc: string, thumb: bool, pat: string)
    requires pat == LiClose || pat == UlClose
    requires Plain(user) && Plain(repo) && Plain(title) && Plain(desc)
    ensures NoOcc(BodyText(user, repo, title, desc, Thumbnail(user, repo, thumb)), pat)
  {
    EntryTagsDepart(pat);
    EntryTextPlain();
    PagesLinkPlain(user, repo);
    var link := PagesLink(user, repo);
    var t := Thumbnail(user, repo, thumb);
    NoOccEmpty(pat);
    if thumb {
      NoOccMissingHead(ThumbAttributes, pat);
      NoOccPlainFront(link + "thumbnail.jpg", ThumbAttributes, pat);
      NoOccTagFront("<img src=\"", (link + "thumbnail.jpg") + ThumbAttributes, pat);
      NoOccPlainFront(" ", "<img src=\"" + ((link + "thumbnail.jpg") + ThumbAttributes), pat);
    }
    NoOccPlainFront(desc, t, pat);
    NoOccTagFront("</a> - ", desc + t, pat);
    NoOccPlainFront(title, "</a> - " + (desc + t), pat);
    NoOccPlainFront("\">", title + ("</a> - " + (desc + t)), pat);
    NoOccPlainFront(link, "\">" + (title + ("</a> - " + (desc + t))), pat);
    NoOccTagFront("<a href=\"", link + ("\">" + (title + ("</a> - " + (desc + t)))), pat);
  }

  /** A new entry is one item whose text closes no item and no list. */
  lemma EntryFree(user: string, repo: string, readme: string, thumb: bool)
    requires Plain(user) && Plain(repo) && Plain(readme)
    ensures NoOcc(EntryBody(user, repo, readme, thumb), LiClose)
    ensures NoOcc(Entry(user, repo, readme, thumb), UlClose)
  {
    EntryBodyFree(user, repo, readme, thumb, LiClose);
    EntryBodyFree(user, repo, readme, thumb, UlClose);
    ItemFree(EntryBody(user, repo, readme, thumb));
  }

  /** The text of a new entry holds neither closing tag. */
  lemma EntryBodyFree(user: string, repo: string, readme: string, thumb: bool, pat: string)
    requires pat == LiClose || pat == UlClose
    requires Plain(user) && Plain(repo) && Plain(readme)
    ensures NoOcc(EntryBody(user, repo, readme, thumb), pat)
  {
    TitlePlain(readme, repo);
    DescriptionPlain(readme);
    BodyFree(user, repo, Title(readme, repo), Description(readme), thumb, pat);
  }

  /** An item whose text closes no list closes none itself. */
  lemma ItemFree(body: string)
    requires NoOcc(body, UlClose)
    ensures NoOcc(LiOpen + body + LiClose, UlClose)
  {
    ItemTagsDepart();
    UlCloseFacts();
    NoOccEmpty(UlClose);
    NoOccTagFront(LiClose, [], UlClose);
    assert LiClose + [] == LiClose;
    NoOccConcat(body, LiClose, UlClose);
    NoOccTagFront(LiOpen, body + LiClose, UlClose);
    assert LiOpen + body + LiClose == LiOpen + (body + LiClose);
  }

  /** The new entries link exactly the repositories they were made for. */
  lemma NewSlidesLinks(user: string, names: seq<string>, readmes: map<string, string>, thumbs: set<string>)
    requires forall x :: x in names ==> x in readmes
    requires Plain(user) && forall x :: x in names ==> x != [] && '/' !in x
    ensures LinkSet(NewSlides(user, names, readmes, thumbs), user) == set x | x in names
  {
    var slides := NewSlides(user, names, readmes, thumbs);
    forall k | 0 <= k < |names| ensures LinkOf(slides[k], user) == Some(names[k]) {
      assert names[k] in names;
    }
    forall x ensures x in LinkSet(slides, user) <==> x in names {
      LinkSetMembers(slides, user, x);
    }
  }

  // ---------------------------------------------------------------- the spliced list

  /** The updated list closes no list, and it ends with a blank. */
  lemma UpdatedListFree(content: string, slides: seq<string>)
    requires ListStart(content) != -1 && ListStart(content) + MarkerWidth <= ListEnd(content)
    requires forall k :: 0 <= k < |slides| ==> NoOcc(slides[k], UlClose)
    ensures NoOcc(UpdatedList(content, slides), UlClose)
    ensures |UpdatedList(content, slides)| > 0 && UpdatedList(content, slides)[|UpdatedList(content, slides)| - 1] == ' '
  {
    RegionBetweenMarkers(content);
    MarkerWidthIsMarker();
    var region := Slice(content, ListStart(content) + MarkerWidth, ListEnd(content));
    var current := RStrip(region);
    NoOccSlice(region, UlClose, 0, |current|);
    assert region[0..|current|] == current;
    ListTextFree(current, slides);
  }

  /** The spliced page around its new list. */
  lemma SplicedShape(content: string, slides: seq<string>)
    requires ListStart(content) != -1 && ListStart(content) + MarkerWidth <= ListEnd(content)
    ensures Spliced(content, slides)
         == content[..ListStart(content) + MarkerWidth] + (UpdatedList(content, slides) + content[ListEnd(content)..])
  {
  }

  /** A marker found last in the front is found there in the whole page. */
  lemma MarkerOfParts(front: string, rest: string)
    requires |front| >= MarkerWidth && Find(front, SortableOpen) == |front| - MarkerWidth
    ensures ListStart(front + rest) == |front| - MarkerWidth
  {
    FindPrefix(front, rest, SortableOpen, 0);
  }

  /** A list close is first found at the start of the back. */
  lemma CloseOfParts(front: string, u: string, back: string)
    requires front != [] && Find(front, UlClose) == -1 && front[|front| - 1] == '>'
    requires NoOcc(u, UlClose) && u != [] && u[|u| - 1] == ' '
    requires OccursAt(back, UlClose, 0)
    ensures ListEnd(front + (u + back)) == |front| + |u|
  {
    CloseAfterList(front, u, back);
  }

  /**
   * A page made of a front that ends with the marker and closes no list, a
   * list text that closes none, and a back that starts with a list close:
   * the region of that page is the list text.
   */
  lemma RegionOfParts(front: string, u: string, back: string)
    requires |front| >= MarkerWidth && Find(front, SortableOpen) == |front| - MarkerWidth
    requires Find(front, UlClose) == -1 && front[|front| - 1] == '>'
    requires NoOcc(u, UlClose) && u != [] && u[|u| - 1] == ' '
    requires OccursAt(back, UlClose, 0)
    ensures ListStart(front + (u + back)) == |front| - MarkerWidth
    ensures ListEnd(front + (u + back)) == |front| + |u|
    ensures ListRegion(front + (u + back)) == Some(u)
  {
    var page := front + (u + back);
    MarkerOfParts(front, u + back);
    CloseOfParts(front, u, back);
    assert page[|front|..|front| + |u|] == u;
    assert Slice(page, ListStart(page) + MarkerWidth, ListEnd(page)) == u;
  }

  /**
   * The page written finds its marker where it was, and its first list
   * close right after the updated list: the next run reads exactly that list.
   */
  lemma SplicedRegion(content: string, slides: seq<string>)
    requires ListStart(content) != -1 && ListStart(content) + MarkerWidth <= ListEnd(content)
    requires forall k :: 0 <= k < |slides| ==> NoOcc(slides[k], UlClose)
    ensures ListStart(Spliced(content, slides)) == ListStart(content)
    ensures ListEnd(Spliced(content, slides)) == ListStart(content) + MarkerWidth + |UpdatedList(content, slides)|
    ensures ListRegion(Spliced(content, slides)) == Some(UpdatedList(content, slides))
  {
    var start, end := ListStart(content), ListEnd(content);
    FrontOfList(content);
    BackOfList(content);
    UpdatedListFree(content, slides);
    SplicedShape(content, slides);
    RegionOfParts(content[..start + MarkerWidth], UpdatedList(content, slides), content[end..]);
  }

  /** The page up to the marker's end finds the marker where the page does, ends with its `>`, and holds no list close. */
  lemma FrontOfList(content: string)
    requires ListStart(content) != -1 && ListStart(content) + MarkerWidth <= ListEnd(content)
    ensures var start := ListStart(content);
            var front := content[..start + MarkerWidth];
            && |front| == start + MarkerWidth && Find(front, SortableOpen) == start
            && Find(front, UlClose) == -1 && front[|front| - 1] == '>'
  {
    var start := ListStart(content);
    MarkerWidthIsMarker();
    FindFound(content, SortableOpen, 0);
    FindInPrefix(content, SortableOpen, 0, start + MarkerWidth);
    FindInPrefix(content, UlClose, 0, start + MarkerWidth);
    assert content[..start + MarkerWidth][start + MarkerWidth - 1] == content[start..start + |SortableOpen|][|SortableOpen| - 1];
  }

  /** The page from the first list close on starts with it. */
  lemma BackOfList(content: string)
    requires ListEnd(content) != -1
    ensures OccursAt(content[ListEnd(content)..], UlClose, 0)
  {
    var end := ListEnd(content);
    FindFound(content, UlClose, 0);
    assert content[end..][..|UlClose|] == content[end..end + |UlClose|];
  }

  /** The updated list holds the items that were there, then the new ones. */
  lemma UpdatedItems(content: string, bodies: seq<string>)
    requires ListStart(content) != -1
    requires Closed(Slice(content, ListStart(content) + MarkerWidth, ListEnd(content)))
    requires forall k :: 0 <= k < |bodies| ==> NoOcc(bodies[k], LiClose)
    ensures LiItems(UpdatedList(content, Wrap(bodies)))
         == LiItems(Slice(content, ListStart(content) + MarkerWidth, ListEnd(content))) + bodies
  {
    var region := Slice(content, ListStart(content) + MarkerWidth, ListEnd(content));
    RStripInert(region);
    ListTextItems(RStrip(region), bodies);
  }

  // ---------------------------------------------------------------- the README bullet of a new entry

  lemma AnchorFacts()
    ensures AnchorMid[0] == '"' && '"' !in AnchorMid[1..]
    ensures AnchorClose[0] == '<' && '<' !in AnchorClose[1..]
    ensures '\n' !in AnchorOpen && '\n' !in AnchorMid && '\n' !in AnchorClose
    ensures ImgOpen[0] == '<'
  {
  }

  /** The search, given where the literals of the pattern are found. */
  lemma SearchFromFinds(s: string, q: int, r: int)
    requires OccursAt(s, AnchorOpen, 0) && FindFrom(s, "\n", 0) == -1
    requires q >= 0 && FindFrom(s, AnchorMid, |AnchorOpen|) == q
    requires r >= 0 && FindFrom(s, AnchorClose, q + |AnchorMid|) == r
    requires !StartsWith(s[r + |AnchorClose|..], ImgOpen)
    ensures ReadmeSearch(s, 0) == Some(Bullet(s[|AnchorOpen|..q], s[q + |AnchorMid|..r], false))
  {
    MatchFromFinds(s, q, r);
    FindFromIs(s, AnchorOpen, 0, 0);
  }

  /** The pattern tried at the start, given where its literals are found. */
  lemma MatchFromFinds(s: string, q: int, r: int)
    requires OccursAt(s, AnchorOpen, 0) && FindFrom(s, "\n", 0) == -1
    requires q >= 0 && FindFrom(s, AnchorMid, |AnchorOpen|) == q
    requires r >= 0 && FindFrom(s, AnchorClose, q + |AnchorMid|) == r
    requires !StartsWith(s[r + |AnchorClose|..], ImgOpen)
    ensures ReadmeMatchAt(s, 0) == Some(Bullet(s[|AnchorOpen|..q], s[q + |AnchorMid|..r], false))
  {
    assert OnLine(s, 0, q) && OnLine(s, 0, r);
  }

  /** `">` is first found right after the link. */
  lemma MidAfterLink(link: string, m: string)
    requires '"' !in link
    ensures FindFrom(AnchorOpen + (link + (AnchorMid + m)), AnchorMid, |AnchorOpen|) == |AnchorOpen| + |link|
  {
    AnchorFacts();
    FindAfterFree(AnchorOpen, link, AnchorMid, m);
  }

  /** `</a> - ` is first found right after the title. */
  lemma CloseAfterTitle(a: string, title: string, tail: string)
    requires '<' !in title
    ensures FindFrom(a + (title + (AnchorClose + tail)), AnchorClose, |a|) == |a| + |title|
  {
    AnchorFacts();
    FindAfterFree(a, title, AnchorClose, tail);
  }

  /** The literals of the pattern in the text of a new entry. */
  lemma BodyFinds(link: string, title: string, tail: string)
    requires '"' !in link && '<' !in title
    ensures var s := AnchorOpen + (link + (AnchorMid + (title + (AnchorClose + tail))));
            && OccursAt(s, AnchorOpen, 0)
            && FindFrom(s, AnchorMid, |AnchorOpen|) == |AnchorOpen| + |link|
            && FindFrom(s, AnchorClose, |AnchorOpen| + |link| + |AnchorMid|) == |AnchorOpen| + |link| + |AnchorMid| + |title|
  {
    var m := title + (AnchorClose + tail);
    var s := AnchorOpen + (link + (AnchorMid + m));
    assert s[..|AnchorOpen|] == AnchorOpen;
    MidAfterLink(link, m);
    var a := AnchorOpen + (link + AnchorMid);
    RightToLeft(AnchorOpen, link, AnchorMid, m);
    CloseAfterTitle(a, title, tail);
  }

  lemma RightToLeft(x: string, y: string, z: string, m: string)
    ensures x + (y + (z + m)) == (x + (y + z)) + m
  {
  }

  /** The groups the pattern takes from the text of a new entry. */
  lemma BodyGroups(link: string, title: string, tail: string)
    ensures var s := AnchorOpen + (link + (AnchorMid + (title + (AnchorClose + tail))));
            var q := |AnchorOpen| + |link|;
            var r := q + |AnchorMid| + |title|;
            && s[|AnchorOpen|..q] == link
            && s[q + |AnchorMid|..r] == title
            && s[r + |AnchorClose|..] == tail
  {
    var m := title + (AnchorClose + tail);
    var a := AnchorOpen + (link + AnchorMid);
    var s := AnchorOpen + (link + (AnchorMid + m));
    assert s == a + m;
    assert s == AnchorOpen + (link + (AnchorMid + m));
    assert m[..|title|] == title;
    assert (a + m)[|a|..|a| + |title|] == title;
    assert (AnchorOpen + (link + (AnchorMid + m)))[|AnchorOpen|..|AnchorOpen| + |link|] == link;
  }

  /**
   * The README pattern on the text of a new entry: the link and the title
   * are its groups, and the thumbnail group stays out, since the
   * description, which cannot start a tag, comes between.
   */
  lemma BodyMatch(link: string, title: string, tail: string)
    requires '"' !in link && '\n' !in link
    requires '<' !in title && '\n' !in title
    requires '\n' !in tail && tail != [] && tail[0] != '<'
    ensures ReadmeSearch(AnchorOpen + (link + (AnchorMid + (title + (AnchorClose + tail)))), 0) == Some(Bullet(link, title, false))
  {
    AnchorFacts();
    var s := AnchorOpen + (link + (AnchorMid + (title + (AnchorClose + tail))));
    BodyFinds(link, title, tail);
    BodyGroups(link, title, tail);
    assert '\n' !in s;
    NoOccMissingHead(s, "\n");
    FindFromFirst(s, "\n", 0);
    var q := |AnchorOpen| + |link|;
    SearchFromFinds(s, q, q + |AnchorMid| + |title|);
  }

  /** A description has no markup and no line break, and is trimmed. */
  lemma DescriptionShape(readme: string)
    requires Plain(readme)
    ensures Plain(Description(readme)) && '\n' !in Description(readme) && Trimmed(Description(readme))
  {
    DescriptionPlain(readme);
  }

  /** A title has no markup and no line break. */
  lemma TitleShape(readme: string, repo: string)
    requires Plain(readme) && NameChars(repo)
    ensures Plain(Title(readme, repo)) && '\n' !in Title(readme, repo)
  {
    NameCharsSafe(repo);
    TitlePlain(readme, repo);
    SplitPiecesFree(readme, "\n");
    NoOccChar(Split(readme, "\n")[0], '\n');
  }

  /**
   * The README lists a new entry by its link and title only: the
   * description group of the pattern is empty and the thumbnail group never
   * takes part, whether or not the entry shows a thumbnail.
   */
  lemma NewEntryBullet(user: string, repo: string, readme: string, thumb: bool)
    requires NameChars(user) && NameChars(repo) && Plain(readme)
    ensures ItemBullet(EntryBody(user, repo, readme, thumb)) == BulletText(Bullet(PagesLink(user, repo), Title(readme, repo), false))
  {
    NameCharsSafe(user);
    NameCharsSafe(repo);
    TitleShape(readme, repo);
    DescriptionShape(readme);
    var link, title, desc, t := PagesLink(user, repo), Title(readme, repo), Description(readme), Thumbnail(user, repo, thumb);
    assert '"' !in link && '\n' !in link by {
      EntryTextPlainBreaks();
    }
    assert '\n' !in t by {
      EntryTextPlainBreaks();
    }
    var tail := desc + t;
    BodyMatch(link, title, tail);
    var body := EntryBody(user, repo, readme, thumb);
    assert body == AnchorOpen + (link + (AnchorMid + (title + (AnchorClose + tail))));
    ThumbnailEnds(user, repo, thumb);
    BodyTrimmed(link, title, desc, t);
    StripKeeps(body);
  }

  lemma EntryTextPlainBreaks()
    ensures '"' !in "https://" && '"' !in ".github.io/" && '"' !in "/"
    ensures '\n' !in "https://" && '\n' !in ".github.io/" && '\n' !in "/"
    ensures '\n' !in " " && '\n' !in "<img src=\"" && '\n' !in "thumbnail.jpg" && '\n' !in ThumbAttributes
  {
  }

  /** The text of an entry starts with `<` and ends with the thumbnail's `>` or the description's last character. */
  /** The thumbnail is absent or ends its tag. */
  lemma ThumbnailEnds(user: string, repo: string, thumb: bool)
    ensures var t := Thumbnail(user, repo, thumb);
            t == [] || t[|t| - 1] == '>'
  {
    if thumb {
      var c := PagesLink(user, repo) + "thumbnail.jpg";
      LastOfConcat(c, ThumbAttributes);
      LastOfConcat("<img src=\"", c + ThumbAttributes);
      LastOfConcat(" ", "<img src=\"" + (c + ThumbAttributes));
    }
  }

  /** The text of an entry starts a tag and ends with the description or the thumbnail, so it is trimmed. */
  lemma BodyTrimmed(link: string, title: string, desc: string, t: string)
    requires Trimmed(desc) && (t == [] || t[|t| - 1] == '>')
    ensures Trimmed(AnchorOpen + (link + (AnchorMid + (title + (AnchorClose + (desc + t))))))
  {
    LastOfNested(AnchorOpen, link, AnchorMid, title, AnchorClose, desc + t);
    if t == [] {
      assert desc + t == desc;
    } else {
      LastOfConcat(desc, t);
    }
  }

  // ---------------------------------------------------------------- one run, then another

  /** The repositories an update adds can be entries: each has a README and a name that links. */
  lemma AddedSafe(content: string, user: string, names: seq<string>, readmes: map<string, string>)
    requires SafeListing(user, names, readmes)
    ensures Plain(user)
    ensures forall x :: x in AddedNames(content, user, names, readmes) ==>
              x in readmes && Plain(readmes[x]) && NameChars(x) && Plain(x) && x != [] && '/' !in x
  {
    NameCharsSafe(user);
    forall x | x in AddedNames(content, user, names, readmes)
      ensures x in readmes && Plain(readmes[x]) && NameChars(x) && Plain(x) && x != [] && '/' !in x
    {
      NameCharsSafe(x);
    }
  }

  /**
   * When the update adds entries to a page whose list is closed, the page
   * it writes lists the old items and then the new ones, and links the
   * repositories it linked before and the added ones.
   */
  lemma AutoUpdateAppends(content: string, user: string, names: seq<string>, readmes: map<string, string>, thumbs: set<string>)
    requires ListStart(content) != -1 && ListStart(content) + MarkerWidth <= ListEnd(content)
    requires Closed(Slice(content, ListStart(content) + MarkerWidth, ListEnd(content)))
    requires SafeListing(user, names, readmes)
    requires AddedNames(content, user, names, readmes) != []
    ensures var once := AutoUpdated(content, user, names, readmes, thumbs);
            var added := AddedNames(content, user, names, readmes);
            && ListRegion(once).Some?
            && LiItems(ListRegion(once).value) == LiItems(ListRegion(content).value) + NewBodies(user, added, readmes, thumbs)
            && ExistingLinks(once, user) == ExistingLinks(content, user) + (set x | x in added)
  {
    var added := AddedNames(content, user, names, readmes);
    AddedSafe(content, user, names, readmes);
    var slides := NewSlides(user, added, readmes, thumbs);
    var bodies := NewBodies(user, added, readmes, thumbs);
    NewSlidesWrap(user, added, readmes, thumbs);
    assert slides != [] by {
      assert |slides| == |added|;
    }
    forall k | 0 <= k < |added|
      ensures NoOcc(bodies[k], LiClose) && NoOcc(slides[k], UlClose)
    {
      EntryFree(user, added[k], readmes[added[k]], added[k] in thumbs);
    }
    SplicedRegion(content, slides);
    UpdatedItems(content, bodies);
    var once := AutoUpdated(content, user, names, readmes, thumbs);
    var region := ListRegion(content).value;
    assert ListRegion(once) == Some(UpdatedList(content, slides));
    WrapConcat(LiItems(region), bodies);
    LinkSetConcat(LiElements(region), slides, user);
    NewSlidesLinks(user, added, readmes, thumbs);
  }

  /** The bullets the README gives the added repositories: link and title, nothing else. */
  function AddedBullets(user: string, names: seq<string>, readmes: map<string, string>): string
    requires forall x :: x in names ==> x in readmes
  {
    if names == [] then ""
    else BulletText(Bullet(PagesLink(user, names[0]), Title(readmes[names[0]], names[0]), false))
         + AddedBullets(user, names[1..], readmes)
  }

  lemma {:induction false} NewBodiesBullets(user: string, names: seq<string>, readmes: map<string, string>, thumbs: set<string>)
    requires forall x :: x in names ==> x in readmes
    requires NameChars(user) && forall x :: x in names ==> NameChars(x) && Plain(readmes[x])
    ensures MdBullets(NewBodies(user, names, readmes, thumbs)) == AddedBullets(user, names, readmes)
  {
    if names != [] {
      var bodies := NewBodies(user, names, readmes, thumbs);
      NewBodiesTail(user, names, readmes, thumbs);
      assert names[0] in names;
      NewEntryBullet(user, names[0], readmes[names[0]], names[0] in thumbs);
      NewBodiesBullets(user, names[1..], readmes, thumbs);
    }
  }

  /**
   * The README published after an update lists the bullets of the items
   * that were on the page, then the added repositories by link and title,
   * without description or thumbnail.
   */
  lemma AutoUpdateReadme(content: string, user: string, names: seq<string>, readmes: map<string, string>, thumbs: set<string>)
    requires ListStart(content) != -1 && ListStart(content) + MarkerWidth <= ListEnd(content)
    requires Closed(Slice(content, ListStart(content) + MarkerWidth, ListEnd(content)))
    requires SafeListing(user, names, readmes)
    ensures var added := AddedNames(content, user, names, readmes);
            MdList(UpdatedList(content, NewSlides(user, added, readmes, thumbs)))
              == MdBullets(LiItems(ListRegion(content).value)) + AddedBullets(user, added, readmes)
  {
    var added := AddedNames(content, user, names, readmes);
    AddedSafe(content, user, names, readmes);
    var bodies := NewBodies(user, added, readmes, thumbs);
    NewSlidesWrap(user, added, readmes, thumbs);
    forall k | 0 <= k < |added| ensures NoOcc(bodies[k], LiClose) {
      EntryFree(user, added[k], readmes[added[k]], added[k] in thumbs);
    }
    UpdatedItems(content, bodies);
    var region := ListRegion(content).value;
    ConcatMapConcat(LiItems(region), bodies, ItemBullet);
    NewBodiesBullets(user, added, readmes, thumbs);
  }

  /** Repositories already linked, or linked by the update, are not fresh on the next run. */
  lemma NoneLeft(repos: seq<string>, existing: set<string>, more: set<string>, readmes: map<string, string>)
    requires existing <= more
    requires forall x :: x in NewNames(repos, existing, readmes) ==> x in more
    ensures NewNames(repos, more, readmes) == []
  {
  }

  /**
   * Running the update again over the same listing changes nothing: every
   * repository the first run added is linked from the page it wrote.
   */
  lemma RerunIsNoOp(content: string, user: string, names: seq<string>, readmes: map<string, string>, thumbs: set<string>)
    requires ListStart(content) != -1 && ListStart(content) + MarkerWidth <= ListEnd(content)
    requires Closed(Slice(content, ListStart(content) + MarkerWidth, ListEnd(content)))
    requires SafeListing(user, names, readmes)
    ensures var once := AutoUpdated(content, user, names, readmes, thumbs);
            AutoUpdated(once, user, names, readmes, thumbs) == once
  {
    var added := AddedNames(content, user, names, readmes);
    var once := AutoUpdated(content, user, names, readmes, thumbs);
    if added != [] {
      AutoUpdateAppends(content, user, names, readmes, thumbs);
      NoneLeft(GalleryNames(names), ExistingLinks(content, user), ExistingLinks(once, user), readmes);
      NothingAdded(once, user, names, readmes, thumbs);
    } else {
      NothingAdded(content, user, names, readmes, thumbs);
    }
  }

  /** An update that finds no fresh repository leaves the page as it was. */
  lemma NothingAdded(content: string, user: string, names: seq<string>, readmes: map<string, string>, thumbs: set<string>)
    requires AddedNames(content, user, names, readmes) == []
    ensures AutoUpdated(content, user, names, readmes, thumbs) == content
  {
    assert NewSlides(user, [], readmes, thumbs) == [];
  }
}
