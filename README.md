# Slide gallery publisher, modelled in Dafny

This project models the text and list logic of a small publisher of
virtual-microscope slides. Each slide is published into one of the
user's `gallery-NN` repositories on GitHub Pages. The system has three
parts:

- **Desktop publisher (`main.py`).** It picks a repository with room
  left. It appends a record for the slide to that repository's
  `gallery.json` and rewrites the repository's `index.html` newest first.
  It can also rebuild the main gallery from every `gallery-NN`
  repository in turn.
- **Gallery editor (`galeri-update.py`).** This Flask app reads the
  `<ul id="sortable"…>` list of the gallery page. It shows the items for
  editing. Its auto-update route adds one card per new `gallery-*`
  repository, built from the repository's README. It then publishes a
  Markdown list of the items as the gallery README.
- **Second editor (`gallery_update.py`).** A second variant of the
  same app. It cuts the list at a fixed offset of 18 characters. Its
  entries are one line each.

All filesystem, git, HTTP and clock values are parameters: the folder
listing, the repository sizes, the stored `gallery.json` lists, the
GitHub repository listing, the README texts, the set of repositories
whose thumbnail exists, and the formatted timestamps.

Modules, one concept each:

- `Opt` (option.dfy): the Option type.
- `PyStr` (pystr.dfy): the Python string operations the code relies on.
  These are `find`, slicing with clamped and negative bounds,
  `strip`/`lstrip`/`rstrip`, `split`, `join`, `replace`, `lower` and
  `capitalize`. It also has the occurrence lemmas the scanners need.
- `Scan` (scan.dfy): `re.findall(open + '(.*?)' + close, s, re.DOTALL)` as
  a scanner. The predicate `Balanced` says that no item is left open
  after the last complete one.
- `Naming` (naming.dfy): the `gallery-` prefix filter and the names
  `gallery-{n:02d}`.
- `GalleryRecord` (records.dfy): the `gallery.json` record. It also has
  `sorted(…, key=date, reverse=True)`, a stable sort on ISO date strings.
- `Publisher` (publisher.dfy): `main.py`.
- `Markup` (markup.dfy): the pieces the two editors share. These are the
  `<li>` scan, the existing-link scan, the new-repository filter, the list
  text, the slide-name rule and the README document.
- `GaleriEditor` (galeri_editor.dfy) and `GaleriRerun` (galeri_rerun.dfy):
  `galeri-update.py` and what happens when its auto-update runs again.
- `GalleryEditor` (gallery_editor.dfy) and `GalleryRerun`
  (gallery_rerun.dfy): `gallery_update.py` and what happens when its
  auto-update runs again.

Loops in the source are methods with loop invariants. Each method is
proved equal to a specification function, and the properties are lemmas
about those functions. `update_main_galeri_repo` tags records in place
with `item["repo"] = …`, modelled by `Publisher.TagInPlace` on an array.

### Behaviour as written

The model follows the code, including where the code is not what a
manifest merger is meant to be:

- **No upsert.** Neither the per-repository update (`main.py:155`) nor
  the editors replace an entry by key. `main.py` always appends.
- **galeri-update.py does not recognise its own entries.** Its cards
  have the shape `<li class=…><a href="…" class="block">`. Its scan only
  finds a literal `<li>` and a link that ends in `/">`. So when a run adds
  entries, the next run adds the same repositories again
  (`GaleriRerun.RerunAddsAgain`). The README it publishes leaves the new
  cards out (`GaleriRerun.ReadmeOmitsNewEntries`).
- **gallery_update.py is idempotent**, under the hypotheses stated in
  `GalleryRerun.RerunIsNoOp`.
- **Missing list start.** `gallery_update.py` cuts at `start + 18` even
  when the marker is missing, so a page without the list keeps only its
  first 17 characters in front of the new list
  (`GalleryEditor.SpliceWithoutMarker`).
- **Thumbnail cards are mislabelled.** galeri's README parser always
  unpacks the first three groups as `(link, name, desc)`. For a card that
  matches the thumbnail pattern, the bold text is then the card's link,
  the link is the thumbnail folder, and the description is the card's
  title (`GaleriEditor.ThumbItemMislabel`).
- **Empty descriptions.** The README pattern of `gallery_update.py` ends in
  a lazy group followed only by an optional group. So every bullet's
  description is empty (`GalleryRerun.BodyMatch`).
- **Aggregation order.** The aggregator does not sort the names.
  It probes `gallery-01`, `gallery-02`, … and stops at the first one
  without a `gallery.json`. After `gallery-99` it probes `gallery-100`.

## Model

| member | source | states |
|---|---|---|
| Naming.GalleryNames | main.py:32-38 | exactly the names that start with `gallery-`, in their order, never more than given |
| Naming.GalleryNamesConcat | main.py:35-37 | filtering distributes over concatenation, so the loop may filter one folder at a time |
| Naming.RepoName | main.py:213 | every probed name is a gallery name |
| Naming.RepoNameRoundTrip | main.py:213 | reading back the number of `gallery-{n:02d}` gives `n`, also from three digits on |
| Naming.RepoNameInjective | main.py:211-222 | different probe counts give different repository names |
| Naming.HundredthName | main.py:213 | the ninth name is `gallery-09` and the hundredth is `gallery-100` |
| Publisher.AvailableRepos | main.py:32-38 | the folder loop returns the gallery names of the listing in listing order |
| Publisher.CurrentRepo | main.py:40-56 | None for no repositories; otherwise the first repository below 450 MiB, with every earlier one at or above it; None exactly when all are at or above it |
| Publisher.NewRecord | main.py:155-162 | title is the description or `Slayt {uid}`; description kept; `blog` iff blog text or image path is non-empty; the url is exactly `https://metinciris.github.io/{repo}/slides/{uid}/`, the address `ReadmeLinksRecord` puts in the slide README |
| Publisher.ReadmeLinksRecord | main.py:142-159 | the slide README's page link is the record's url |
| Publisher.SlideReadme | main.py:142 | the slide README opens with `# Slayt {uid}` and holds the line `Page Linki: ` and the page address right after the heading and description |
| Publisher.UpdateManifest | main.py:150-181 | the stored list, or the empty list, with exactly the new record appended at the end; the page is rendered from that list |
| Publisher.PageLines | main.py:167-170 | the rendered items are one per line, newest first, a permutation of the gallery that keeps the order of records with the same date |
| Publisher.RepoPage | main.py:167-181 | the page opens with the fixed head and ends with the fixed tail; for a non-empty gallery of one-line records, the text between them splits at line breaks into the items of the gallery sorted newest first |
| Publisher.MainPage | main.py:230-244 | the same for the main page, whose items link each record's own repository |
| Publisher.ItemLi | main.py:168 | the item of a one-line record, with a one-line repository for its link, is one line |
| Publisher.SortedKeepsTags | main.py:230-232 | sorting keeps every record's repository tag |
| Publisher.Tagged | main.py:219-220 | every record is tagged with the repository and nothing else about it changes |
| Publisher.TagInPlace | main.py:219-220 | the array is tagged in place: its new contents are the tagged old contents |
| Publisher.Aggregate | main.py:210-222 | probes until the first missing `gallery.json`; the result is the concatenation, in index order, of every repository before it |
| Publisher.CollectedOrigin | main.py:215-221 | every aggregated record is a record of some probed repository, tagged with that repository |
| Publisher.Collected | main.py:210-222 | every aggregated record carries a tag, and the tag is a gallery name |
| Publisher.UpdateMainGallery | main.py:209-244 | the aggregate of the probed repositories, all tagged, and the page rendered from it |
| GalleryRecord.BelowIrreflexive | main.py:169 | the date order is irreflexive |
| GalleryRecord.BelowTransitive | main.py:169 | the date order is transitive |
| GalleryRecord.BelowTotal | main.py:169 | any two dates are equal or ordered |
| GalleryRecord.DatedOnMembers | main.py:169 | the records of one date are exactly those of the list with that date |
| GalleryRecord.InsertByDatePermutes | main.py:169 | insertion adds exactly the one record |
| GalleryRecord.InsertByDateSorted | main.py:169 | insertion into a newest-first list keeps it newest first |
| GalleryRecord.InsertByDateDatedOn | main.py:169 | insertion puts a record before the records of its own date that were already there |
| GalleryRecord.SortByDateDescSorts | main.py:169 | the sort is a permutation and newest first |
| GalleryRecord.SortByDateDescStable | main.py:169 | records with equal dates keep their relative order |
| GalleryRecord.SortByDateDesc | main.py:169 | the sort is a permutation: the same records as often as before |
| PyStr.FindFrom | galeri-update.py:159-160 | `find` returns -1 or an in-bounds index at or after the start |
| PyStr.FindFromFirst | galeri-update.py:159-160 | what `find` returns is an occurrence, and no earlier one exists at or after the start |
| PyStr.Slice | gallery_update.py:152 | Python slicing: the plain slice when bounds are in range, the empty string when the bounds cross |
| PyStr.SliceBound | gallery_update.py:277 | a bound inside the string is kept, a negative one counts from the end, and one past either end is clamped to that end |
| PyStr.StripWith | galeri-update.py:276 | the result is the slice of `s` left once a run of removed characters is cut from each end, and it neither starts nor ends with a removed character |
| PyStr.LStripWith | galeri-update.py:282 | `lstrip` leaves a suffix that does not start with a removed character |
| PyStr.RStripWith | galeri-update.py:292 | `rstrip` leaves a prefix that does not end with a removed character |
| PyStr.Split | galeri-update.py:275 | `split` yields at least one piece |
| PyStr.JoinSplit | galeri-update.py:275 | joining the pieces of `split` gives the string back |
| PyStr.SplitJoin | galeri-update.py:278 | splitting a join of pieces without the separator character gives the pieces back |
| PyStr.ReplaceIsJoinSplit | galeri-update.py:278 | `replace(t, w)` is the join with `w` of the split at `t` |
| PyStr.Replace | galeri-update.py:278 | `replace` leaves a string without the target unchanged |
| PyStr.Join | galeri-update.py:278 | a join is as long as the pieces with one separator between each two |
| PyStr.Lower | galeri-update.py:283 | `lower` keeps the length and maps each character |
| PyStr.Capitalize | galeri-update.py:278 | `capitalize` keeps the length, upper-cases the first character and lower-cases the rest |
| PyStr.LowerCapitalize | galeri-update.py:283 | comparing lower-cased, a capitalised word equals the word |
| PyStr.LowerJoin | galeri-update.py:278-283 | lower-casing a join is the join of the lower-cased pieces |
| Scan.Between | galeri-update.py:164 | no item found by the lazy scan contains the closing tag |
| Scan.BetweenConcat | galeri-update.py:164 | after a closed text, the scan of a concatenation is the concatenation of the scans |
| Scan.BetweenInertTail | galeri-update.py:292 | trailing characters that are not tag characters add no items |
| Markup.LiItemsFree | galeri-update.py:164 | no item text contains `</li>` |
| Markup.PlainHasNoItems | galeri-update.py:164 | text without markup has no items and is closed |
| Markup.LiConcat | galeri-update.py:164 | the items of a closed text followed by more text are the items of each part |
| Markup.LiJoin | gallery_update.py:276 | the items of a joined list of wrapped bodies are those bodies |
| Markup.ListText | galeri-update.py:293 | the updated list opens with the current list and a line break plus indentation, and ends with the closing indentation; without entries it is only those |
| Markup.RStripInert | galeri-update.py:292 | removing trailing blanks keeps the items and whether the list is closed |
| Markup.ListTextItems | gallery_update.py:275-276 | appending wrapped bodies to a closed list appends exactly those bodies to its items |
| Markup.ListTextNoNewItems | galeri-update.py:292-293 | appending entries without a literal `<li>` to a closed list leaves its items as they were |
| Markup.ListTextFree | galeri-update.py:293 | an updated list built from texts without `</ul>` has none and ends with a blank |
| Markup.CloseAfterList | galeri-update.py:240 | the first `</ul>` of a spliced page is the one right after the new list |
| Markup.BoxedViewItems | galeri-update.py:164-165 | the editor shows each item of the region inside a textarea, in order |
| Markup.NameCharsSafe | galeri-update.py:247 | a name of letters, digits, `-`, `_` and `.` has no markup and no `/` |
| Markup.NameRun | galeri-update.py:247 | `[^/]+` runs up to the first `/` |
| Markup.LinkFrom | galeri-update.py:247-249 | a found link is a non-empty name without `/`, framed by the Pages address and `/">` |
| Markup.LinkFound | galeri-update.py:247-249 | a framed link in an item is found |
| Markup.LinkFoundHere | galeri-update.py:247-249 | the Pages address at a framed link gives that name |
| Markup.LinkOfTagged | gallery_update.py:229-233 | an item that starts with `<li>` and a framed link gives that repository |
| Markup.LinkSetMembers | galeri-update.py:248-251 | a name is an existing link iff some item links to it |
| Markup.LinkSetConcat | galeri-update.py:248-251 | the links of two lists of items are the union of their links |
| Markup.CollectLinks | galeri-update.py:248-251 | the loop over the items collects exactly the linked names |
| Markup.PagesLinkPlain | galeri-update.py:255 | the Pages address of plain names has no markup |
| Markup.NewNames | galeri-update.py:254-269 | a repository is added iff it is listed, not linked yet, and has a non-blank README; never more than listed |
| Markup.NewNamesSnoc | galeri-update.py:254-289 | one more listed repository adds itself or nothing, at the end |
| Markup.SlideName | galeri-update.py:276 | the first line without `#` and blanks at both ends when it starts with `#`, else the repository name |
| Markup.ReadmeDocument | galeri-update.py:101-118 | the published README starts with the fixed introduction, followed by the Markdown list |
| GaleriEditor.ListOffset | galeri-update.py:241-245 | `start_content` never lies beyond the end of the page |
| GaleriEditor.RegionMissing | galeri-update.py:239-246 | no region iff one of the markers is missing, and then the offset is 0 |
| GaleriEditor.ListRegion | galeri-update.py:244-246 | a region found reaches no further than the first `</ul>`: it holds none |
| GaleriEditor.OffsetAfterTag | galeri-update.py:245 | the offset is just past the first `>` after the marker |
| GaleriEditor.RegionAfterTag | galeri-update.py:244-246 | the region is the text between the offset and the first `</ul>`, without `</ul>`, or empty when the `>` comes later |
| GaleriEditor.EditorViewItems | galeri-update.py:159-167 | the editor shows every item of the region in a textarea, or nothing without a region |
| GaleriEditor.VariantsAgree | galeri-update.py:159-165 | on a page whose marker is followed directly by `>`, both editors find the same region, view and links |
| GaleriEditor.CleanSlideName | galeri-update.py:278 | the clean slide name has no `-` |
| GaleriEditor.CleanNameKeepsOut | galeri-update.py:278 | the clean name adds no character that is not a letter or a blank |
| GaleriEditor.CleanNameWords | galeri-update.py:278 | for a name without blanks, the blank-separated words of the clean name are the capitalized `-`-separated words of the name without `gallery-` |
| GaleriEditor.CleanNameRoundTrip | galeri-update.py:278 | lower-cased with blanks back to dashes, the clean name is the name without `gallery-` |
| GaleriEditor.DescriptionLinesMembers | galeri-update.py:279-284 | a line is in the description iff some later line is kept, cleans to it, is non-empty and differs from the name ignoring case |
| GaleriEditor.DescriptionLinesShape | galeri-update.py:279-284 | every description line is trimmed and differs from the slide name ignoring case |
| GaleriEditor.CollectDescription | galeri-update.py:279-284 | the loop collects exactly the description lines |
| GaleriEditor.DescriptionText | galeri-update.py:279-286 | the description text is one trimmed line |
| GaleriEditor.EntryText | galeri-update.py:288 | the card links the slide's Pages address right after the item tag, and shows the thumbnail, then the heading with the name, right after `<div>` |
| GaleriEditor.Entry | galeri-update.py:271-288 | a card links its repository's page; it shows the thumbnail image at that address when there is one, and otherwise starts with the heading of the clean slide name |
| GaleriEditor.BuildEntry | galeri-update.py:271-288 | the card for one repository |
| GaleriEditor.NewSlidesSnoc | galeri-update.py:254-289 | one more added repository appends its card |
| GaleriEditor.CollectNewSlides | galeri-update.py:253-289 | the loop builds one card per added repository, in listing order |
| GaleriEditor.Lazy | galeri-update.py:90-92 | a lazy group and its literal stand where the group starts, the group holds no earlier literal, and without a match the literal does not occur at or after the start |
| GaleriEditor.LazyFails | galeri-update.py:90-92 | a lazy group fails exactly when its literal occurs nowhere at or after the start |
| GaleriEditor.LazyMatch | galeri-update.py:92 | a match reads the link, `">`, the name and `</a><p`, then `>`, the description and `</p>`, each group the shortest |
| GaleriEditor.AnchorGroups | galeri-update.py:92 | a match of the plain pattern reads, from the first `<a href="`, the link, `">`, the name and `</a><p`, then later `>`, the description and `</p>`, each group the shortest |
| GaleriEditor.FindThumbFile | galeri-update.py:90 | a place it returns is one where `thumbnail.jpg"` matches, its `.` any character |
| GaleriEditor.FindThumbFileFirst | galeri-update.py:90 | no match starts before the place returned, and none at all when it finds nothing |
| GaleriEditor.ThumbStopReads | galeri-update.py:90 | the thumbnail group follows a `src="` and runs up to `thumbnail.jpg"`; the image tag ends before the anchor is searched |
| GaleriEditor.ThumbGroups | galeri-update.py:90 | a match of the thumbnail pattern reads `src="`, the folder group and `thumbnail.jpg"`, then later an anchor whose link and name are the other two groups, those two each the shortest |
| GaleriEditor.ItemBullet | galeri-update.py:89-99 | an item gives no bullet iff neither pattern matches |
| GaleriEditor.ThumbItemMislabel | galeri-update.py:93-99 | a thumbnail card is listed with its link in bold, the thumbnail folder as link and its title as description |
| GaleriEditor.AnchorItemBullet | galeri-update.py:92-99 | a plain card is listed as `- [**name**](link) - desc` |
| GaleriEditor.ReadmeList | galeri-update.py:86-99 | the loop over the items builds exactly the Markdown list |
| GaleriEditor.SpliceAtRegion | galeri-update.py:294 | with both markers, the page up to the offset, the updated list, and the page from `</ul>` on |
| GaleriEditor.SpliceWithoutClose | galeri-update.py:294 | without `</ul>`, the whole page followed by a new list |
| GaleriEditor.SpliceWithoutMarker | galeri-update.py:241-294 | without the marker but with `</ul>`, the updated list replaces everything before `</ul>` |
| GaleriEditor.UpdatedList | galeri-update.py:292-293 | the updated list opens with the old list without trailing blanks and a line break, ends with the closing indentation, and holds only the new cards when there is no old list |
| GaleriEditor.Spliced | galeri-update.py:294 | with `</ul>`, the page up to the offset, the updated list, then the page from `</ul>` on; without it, the whole page, a new list opening, and `</ul>` at the end |
| GaleriEditor.ReadList | galeri-update.py:239-251 | the offset, the region and the existing links |
| GaleriEditor.AutoUpdate | galeri-update.py:222-310 | the page is spliced only when cards were added, else returned unchanged; the README is published only then, from the updated list |
| GaleriRerun.TitlePlain | galeri-update.py:276 | a README without markup gives a slide name (before cleaning) without markup; `CleanNameKeepsOut` carries this over to the clean name |
| GaleriRerun.DescriptionPlain | galeri-update.py:279-286 | a README without markup gives a description without markup |
| GaleriRerun.EntryTextFree | galeri-update.py:288 | a card built from texts without markup holds no `<li>` and no `</ul>` |
| GaleriRerun.EntryFree | galeri-update.py:288 | the card of a plain README holds no `<li>` and no `</ul>` |
| GaleriRerun.NewSlidesFree | galeri-update.py:288-289 | no new card holds `<li>` or `</ul>` |
| GaleriRerun.CurrentItems | galeri-update.py:292 | the kept old list has the items of the region and stays closed |
| GaleriRerun.UpdatedItems | galeri-update.py:292-293 | the updated list has exactly the items of the old region |
| GaleriRerun.UpdatedListFree | galeri-update.py:293 | the updated list holds no `</ul>` and ends with a blank |
| GaleriRerun.RegionOfParts | galeri-update.py:239-246 | a page made of a front ending with the tag, a list and a back starting with `</ul>` has that list as its region |
| GaleriRerun.FrontFacts | galeri-update.py:245 | the page up to the offset holds the marker, ends with the first `>` after it and has no `</ul>` |
| GaleriRerun.SplicedRegion | galeri-update.py:294 | the written page has the same marker and offset, and its region is the updated list |
| GaleriRerun.SplicedListed | galeri-update.py:244-246 | the written page is well-formed again |
| GaleriRerun.SplicedItems | galeri-update.py:244-251 | the written page keeps the items and the existing links of the old one |
| GaleriRerun.OnceIsSpliced | galeri-update.py:291-294 | with cards to add, the written page is the splice of those cards |
| GaleriRerun.AddedSafe | galeri-update.py:254-269 | every added repository has a README and no markup |
| GaleriRerun.ReadmeOmitsNewEntries | galeri-update.py:292-299 | the README published after an update lists the old items and none of the new cards |
| GaleriRerun.RerunAddsAgain | galeri-update.py:244-289 | after an update that adds cards, the next run sees the same links and adds the same repositories again |
| GalleryEditor.MarkerWidthIsMarker | gallery_update.py:152 | the fixed offset 18 is the length of `<ul id="sortable">` |
| GalleryEditor.RegionBetweenMarkers | gallery_update.py:149-156 | no region iff a marker is missing; otherwise the text between the marker and the first `</ul>`, without `</ul>`, or empty when they overlap |
| GalleryEditor.ListRegion | gallery_update.py:149-152 | no region iff a marker is missing; a region found holds no `</ul>` |
| GalleryEditor.EditorViewItems | gallery_update.py:151-156 | the editor shows every item of the region in a textarea, or nothing without a region |
| GalleryEditor.KeptLinesMembers | gallery_update.py:264-266 | a line is in the description iff some later line is kept and strips to it |
| GalleryEditor.KeptLinesTrimmed | gallery_update.py:264-266 | every description line is trimmed |
| GalleryEditor.Description | gallery_update.py:264-268 | the description is a non-empty trimmed line |
| GalleryEditor.CollectDescription | gallery_update.py:263-266 | the loop collects exactly the kept later lines |
| GalleryEditor.EntryText | gallery_update.py:270 | the entry is `<li>`, its body, `</li>`; for a user without markup and a repository name without `/`, the link scan finds exactly that repository in it |
| GalleryEditor.BodyText | gallery_update.py:270 | the body starts with the Pages link of the repository, `">`, the name and `</a> - `, and ends with the description and thumbnail |
| GalleryEditor.Entry | gallery_update.py:256-270 | the entry of a README is an item, and for safe names it links its own repository |
| GalleryEditor.BuildEntry | gallery_update.py:256-270 | the entry for one repository |
| GalleryEditor.NewSlidesWrap | gallery_update.py:270-271 | the entries are the bodies wrapped in `<li>` tags |
| GalleryEditor.NewSlidesSnoc | gallery_update.py:237-271 | one more added repository appends its entry |
| GalleryEditor.CollectNewSlides | gallery_update.py:236-271 | the loop builds one entry per added repository, in listing order |
| GalleryEditor.ReadmeMatchAt | gallery_update.py:97 | a match at `p` is `<a href="L">N</a> - ` standing at `p`, with L and N on one line and each the shortest group that lets the rest match; a thumbnail group starts with `<img` right after it |
| GalleryEditor.MatchAtComplete | gallery_update.py:97 | wherever `<a href="L">N</a> - ` stands with L and N on one line, the match at that place succeeds |
| GalleryEditor.ReadmeSearch | gallery_update.py:97 | `re.search` finds a match such as above at the leftmost place the pattern can match, and finds none exactly when it can match nowhere |
| GalleryEditor.BulletText | gallery_update.py:100-101 | a bullet opens with the bold name, the link and ` - `, ends with a blank line, and holds the thumbnail image iff the thumbnail group took part |
| GalleryEditor.ItemBullet | gallery_update.py:95-101 | an item gives no bullet exactly when the pattern matches nowhere in its stripped text |
| GalleryEditor.ReadmeList | gallery_update.py:90-101 | the Markdown list of the items |
| GalleryEditor.CollectBullets | gallery_update.py:95-101 | the loop builds exactly the bullets of the matching items |
| GalleryEditor.UpdatedList | gallery_update.py:275-276 | the updated list opens with the old region without trailing blanks and a line break, ends with the closing indentation, and holds only the new entries when there is no marker |
| GalleryEditor.Spliced | gallery_update.py:277 | the page keeps its text up to 18 characters past the marker, then the updated list, and its text from the first `</ul>` on |
| GalleryEditor.SpliceWithoutMarker | gallery_update.py:275-277 | without the marker, the first 17 characters, the new entries, and the page from `</ul>` on, or only its last character |
| GalleryEditor.AutoUpdate | gallery_update.py:221-297 | the page is spliced only when entries were added, else returned unchanged; the README is published only then |
| GalleryRerun.TitlePlain | gallery_update.py:262 | a README without markup gives a slide name without markup |
| GalleryRerun.DescriptionPlain | gallery_update.py:264-268 | a README without markup gives a description without markup |
| GalleryRerun.BodyFree | gallery_update.py:270 | a body built from plain texts has no `</li>` or `</ul>` |
| GalleryRerun.EntryFree | gallery_update.py:270 | the entry of a plain README has no `</li>` in its body and no `</ul>` |
| GalleryRerun.NewSlidesLinks | gallery_update.py:227-271 | the links of the new entries are exactly the added repositories |
| GalleryRerun.UpdatedListFree | gallery_update.py:275-276 | the updated list has no `</ul>` and ends with a blank |
| GalleryRerun.RegionOfParts | gallery_update.py:221-225 | a page made of a front ending with the marker, a list and a back starting with `</ul>` has that list as its region |
| GalleryRerun.SplicedRegion | gallery_update.py:221-277 | the written page has its marker where it was, and its region is the updated list |
| GalleryRerun.UpdatedItems | gallery_update.py:275-276 | the updated list's items are the old items followed by the new bodies |
| GalleryRerun.BodyMatch | gallery_update.py:97 | a one-line item `<a href="L">N</a> - D` gives the bullet for L and N with an empty description and no thumbnail |
| GalleryRerun.DescriptionShape | gallery_update.py:264-268 | the description of a plain README is plain, one line and trimmed |
| GalleryRerun.TitleShape | gallery_update.py:262 | the slide name of a plain README is plain and one line |
| GalleryRerun.NewEntryBullet | gallery_update.py:97-101 | a new entry is listed with its Pages link and slide name |
| GalleryRerun.AddedSafe | gallery_update.py:237-253 | every added repository has a README, a plain name and no `/` |
| GalleryRerun.AutoUpdateAppends | gallery_update.py:273-277 | after an update, the region holds the old items followed by the new bodies, and the links grow by exactly the added repositories |
| GalleryRerun.NewBodiesBullets | gallery_update.py:94-101 | the bullets of the new bodies are one bullet per added repository |
| GalleryRerun.AutoUpdateReadme | gallery_update.py:286 | the published list is the old bullets followed by the new ones |
| GalleryRerun.NoneLeft | gallery_update.py:239-240 | once every added repository is linked, nothing is added |
| GalleryRerun.RerunIsNoOp | gallery_update.py:221-297 | running the auto-update again on the page it wrote returns that page unchanged |

## Left out

- The tkinter window and the HTML editor window in `main.py`: these are user interface.
- SVS to DZI conversion through pyvips, and the viewer pages it writes. These need a foreign library and file output.
- Filesystem work is left out: `os.walk` size sums, `copytree`, and the reads and writes of `gallery.json`, `index.html` and README files. The stored lists, sizes and page text are parameters instead.
- The git calls (init, create_remote, clone, add, commit): version-control plumbing.
- The GitHub REST calls: listing, README fetch, thumbnail HEAD request, file update, and `time.sleep` between calls. These are network operations. The listing, the README texts (a missing key means a failed fetch) and the set of repositories with a thumbnail are parameters.
- Base64 decoding of README contents, done by the library: the README texts are given already decoded.
- The default page written when `index.html` is missing, and the `save` route. The default page is file output. The `save` route rewrites the whole page from the editor's text.
- The log cleanup retry loop and all logging.
- `datetime.now()` and `time.strftime`: the date and the stamp are string parameters.
- Flask routing and `render_template`: web plumbing. A route is modelled by the values it renders or returns.
- The JSON responses and messages of the routes (exception paths are I/O failures).
- PyStr.Lower: ASCII letters only; Python's Unicode case mapping is not modelled.
- PyStr.Capitalize: ASCII letters only, for the same reason.
- GaleriEditor.AnchorGroups: a regular expression is modelled only for these exact patterns, as a chain of first finds. This is exact for lazy groups under DOTALL, because a later end of a group leaves less text for the rest of the pattern. There is no general regex engine.
- GaleriEditor.ThumbGroups: the same chain, starting from the first `<img`.
- GaleriEditor.AnchorGroups: the contract states what a match reads; it does not state that no match means the pattern matches nowhere.
- GaleriEditor.ThumbGroups: likewise, only what a match reads.
- GalleryEditor.ReadmeMatchAt: of the thumbnail group the contract states only that it starts with `<img`; that a `>` must follow on the same line is in the definition alone.
- GaleriRerun.RerunAddsAgain: proved for repository names of letters, digits, `-`, `_` and `.`. It also requires READMEs without `<`, a region with no unclosed `<li>`, and a first `>` after the marker that comes before the first `</ul>`.
- GalleryRerun.RerunIsNoOp: proved under the same kind of hypotheses: safe names and READMEs, a closed region, and the marker before the first `</ul>`.
- Publisher.CurrentRepo: the repository sizes are given as naturals instead of being summed from the files.
