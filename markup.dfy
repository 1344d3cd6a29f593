/**
 * The pieces the two gallery editors share: the scan behind
 * `re.findall(r'<li>(.*?)</li>', s, re.DOTALL)`, the scan behind
 * `re.search(r'<a href="https://USER\.github\.io/([^/]+)/">', li)`, the
 * README fields every slide repository is read for, and the README the
 * editors publish. Each regular expression is modelled by a scanner made of
 * `find` calls: a lazy `.*?` between literals under DOTALL always settles on
 * the earliest occurrence of the literal that follows it.
 */
module Markup {
  import opened Opt
  import opened PyStr
  import opened Scan

  const LiOpen: string := "<li>"
  const LiClose: string := "</li>"
  const UlClose: string := "</ul>"

  /** Text without markup: it holds no `<`. */
  predicate Plain(s: string) {
    '<' !in s
  }

  // ---------------------------------------------------------------- <li> items

  /** `re.findall(r'<li>(.*?)</li>', s, re.DOTALL)`: the text of every item, in document order. */
  function LiItems(s: string): seq<string> {
    Between(s, LiOpen, LiClose)
  }

  /** After its last complete item, `s` opens no further item. */
  predicate Closed(s: string) {
    Balanced(s, LiOpen, LiClose)
  }

  /** Each item text inside its tags. */
  function Wrap(items: seq<string>): (r: seq<string>)
    ensures |r| == |items|
    ensures forall k :: 0 <= k < |items| ==> r[k] == LiOpen + items[k] + LiClose
  {
    if items == [] then [] else [LiOpen + items[0] + LiClose] + Wrap(items[1..])
  }

  /** `re.findall(r'<li>.*?</li>', s, re.DOTALL)`: every whole item, in document order. */
  function LiElements(s: string): seq<string> {
    Wrap(LiItems(s))
  }

  /** No item text holds a closing tag: each runs up to the first `</li>` after its `<li>`. */
  lemma LiItemsFree(s: string)
    ensures forall k :: 0 <= k < |LiItems(s)| ==> NoOcc(LiItems(s)[k], LiClose)
  {
    assert AllFree(LiItems(s), LiClose);
  }

  lemma PlainHasNoItems(s: string)
    requires Plain(s)
    ensures LiItems(s) == [] && Closed(s)
  {
    NoOccMissingHead(s, LiOpen);
    FindFromFirst(s, LiOpen, 0);
    BetweenNone(s, LiOpen, LiClose);
  }

  /** A closed text followed by a text that cannot continue an opening tag: the items of each, in order. */
  lemma LiConcat(a: string, b: string)
    requires Closed(a)
    requires b == [] || b[0] !in LiOpen[1..]
    ensures LiItems(a + b) == LiItems(a) + LiItems(b)
    ensures Closed(a + b) == Closed(b)
  {
    BetweenConcat(a, b, LiOpen, LiClose);
  }

  /** A tail made of characters no tag uses changes neither the items nor closedness. */
  lemma LiInertTail(a: string, w: string)
    requires forall c :: c in w ==> c !in LiClose
    ensures LiItems(a + w) == LiItems(a)
    ensures Closed(a + w) == Closed(a)
  {
    forall c | c in w ensures c !in LiOpen && c !in LiClose {
      assert c != '<' && c != 'l' && c != 'i' && c != '>';
    }
    BetweenInertTail(a, w, LiOpen, LiClose);
  }

  /** Plain text, then one item whose text holds no closing tag, then the rest. */
  lemma LiStep(w: string, body: string, rest: string)
    requires Plain(w) && NoOcc(body, LiClose)
    ensures LiItems(w + (LiOpen + (body + (LiClose + rest)))) == [body] + LiItems(rest)
  {
    PlainStep(w, LiOpen, body, LiClose, rest);
  }

  lemma {:induction false} WrapConcat(a: seq<string>, b: seq<string>)
    ensures Wrap(a + b) == Wrap(a) + Wrap(b)
  {
    var u, v := Wrap(a + b), Wrap(a) + Wrap(b);
    forall k | 0 <= k < |u| ensures u[k] == v[k] {
      if k < |a| {
        assert (a + b)[k] == a[k];
      } else {
        assert (a + b)[k] == b[k - |a|];
      }
    }
  }

  /**
   * Items joined on plain text, behind a plain front and before a plain
   * tail: the scan gives back exactly the item texts.
   */
  lemma {:induction false} LiJoin(front: string, sep: string, bodies: seq<string>, tail: string)
    requires Plain(front) && Plain(sep) && Plain(tail)
    requires forall k :: 0 <= k < |bodies| ==> NoOcc(bodies[k], LiClose)
    ensures LiItems(front + (Join(sep, Wrap(bodies)) + tail)) == bodies
    decreases |bodies|
  {
    var elems := Wrap(bodies);
    if bodies == [] {
      assert front + (Join(sep, elems) + tail) == front + tail;
      PlainHasNoItems(front + tail);
    } else {
      var b := bodies[0];
      var rest := if |bodies| == 1 then tail else sep + (Join(sep, Wrap(bodies[1..])) + tail);
      if |bodies| == 1 {
        PlainHasNoItems(tail);
      } else {
        assert elems[1..] == Wrap(bodies[1..]);
        LiJoin(sep, sep, bodies[1..], tail);
      }
      JoinHead(sep, elems, LiOpen, b, LiClose, tail);
      LiStep(front, b, rest);
      assert bodies == [b] + bodies[1..];
    }
  }

  // ---------------------------------------------------------------- the list text the editors write

  /** The separator between items, in the editor view and in a spliced list. */
  const ItemSep: string := "\n        "
  /** What follows the last item of a spliced list. */
  const ListTail: string := "\n    "

  /** `current + '\n        ' + '\n        '.join(slides) + '\n    '`: the old list text, then one new item per line. */
  function ListText(current: string, slides: seq<string>): (r: string)
    ensures StartsWith(r, current + ItemSep)
    ensures |ListTail| <= |r| && r[|r| - |ListTail|..] == ListTail
    ensures slides == [] ==> r == current + ItemSep + ListTail
  {
    Parts3(current + ItemSep, Join(ItemSep, slides), ListTail);
    current + ItemSep + Join(ItemSep, slides) + ListTail
  }

  lemma SeparatorFacts()
    ensures Plain(ItemSep) && Plain(ListTail)
    ensures ItemSep != [] && ItemSep[0] == '\n' && ItemSep[|ItemSep| - 1] == ' '
    ensures ListTail != [] && ListTail[0] == '\n' && ListTail[|ListTail| - 1] == ' '
    ensures '\n' !in LiOpen[1..]
  {
  }

  lemma ListTextShape(current: string, slides: seq<string>)
    ensures ListText(current, slides) == current + (ItemSep + (Join(ItemSep, slides) + ListTail))
  {
  }

  /** A blank cannot be part of a tag. */
  lemma SpaceNotInTag(c: char)
    requires IsSpace(c)
    ensures c !in LiClose
  {
  }

  /** Trailing blanks neither add an item nor leave one open. */
  lemma RStripInert(region: string)
    ensures LiItems(RStrip(region)) == LiItems(region)
    ensures Closed(RStrip(region)) == Closed(region)
  {
    var current := RStrip(region);
    var w := region[|current|..];
    assert region == current + w;
    forall c | c in w ensures c !in LiClose {
      var i :| 0 <= i < |w| && w[i] == c;
      assert IsSpace(region[|current| + i]);
      SpaceNotInTag(c);
    }
    LiInertTail(current, w);
  }

  /** After a closed text, the list text holds the items of that text, then the new ones. */
  lemma ListTextItems(current: string, bodies: seq<string>)
    requires Closed(current)
    requires forall k :: 0 <= k < |bodies| ==> NoOcc(bodies[k], LiClose)
    ensures LiItems(ListText(current, Wrap(bodies))) == LiItems(current) + bodies
  {
    SeparatorFacts();
    var j := Join(ItemSep, Wrap(bodies));
    LiJoin(ItemSep, ItemSep, bodies, ListTail);
    LiConcat(current, ItemSep + (j + ListTail));
    ListTextShape(current, Wrap(bodies));
  }

  /** After a closed text, new entries that open no `<li>` add no item. */
  lemma ListTextNoNewItems(current: string, slides: seq<string>)
    requires Closed(current)
    requires forall k :: 0 <= k < |slides| ==> NoOcc(slides[k], LiOpen)
    ensures LiItems(ListText(current, slides)) == LiItems(current)
  {
    SeparatorFacts();
    var rest := ItemSep + (Join(ItemSep, slides) + ListTail);
    NoOccMissingHead(ListTail, LiOpen);
    NoOccJoin(ItemSep, slides, LiOpen);
    NoOccConcat(Join(ItemSep, slides), ListTail, LiOpen);
    NoOccPlainFront(ItemSep, Join(ItemSep, slides) + ListTail, LiOpen);
    NoOccFind(rest, LiOpen);
    BetweenNone(rest, LiOpen, LiClose);
    LiConcat(current, rest);
    ListTextShape(current, slides);
  }

  /**
   * A list text closes no list when the old text and the new entries close
   * none; it ends with a blank.
   */
  lemma ListTextFree(current: string, slides: seq<string>)
    requires NoOcc(current, UlClose)
    requires forall k :: 0 <= k < |slides| ==> NoOcc(slides[k], UlClose)
    ensures NoOcc(ListText(current, slides), UlClose)
    ensures |ListText(current, slides)| > 0 && ListText(current, slides)[|ListText(current, slides)| - 1] == ' '
  {
    SeparatorFacts();
    UlCloseFacts();
    NoOccMissingHead(ItemSep, UlClose);
    NoOccMissingHead(ListTail, UlClose);
    NoOccJoin(ItemSep, slides, UlClose);
    var j := Join(ItemSep, slides);
    NoOccConcat(current, ItemSep, UlClose);
    assert (current + ItemSep)[|current + ItemSep| - 1] == ' ';
    NoOccConcat(current + ItemSep, j, UlClose);
    NoOccConcat(current + ItemSep + j, ListTail, UlClose);
  }

  /**
   * Behind a front that ends with `>` and closes no list, a list text that
   * closes none and ends with a blank, and a back that starts with a list
   * close: the first list close is the back's.
   */
  lemma CloseAfterList(front: string, u: string, back: string)
    requires front != [] && Find(front, UlClose) == -1 && front[|front| - 1] == '>'
    requires NoOcc(u, UlClose) && u != [] && u[|u| - 1] == ' '
    requires OccursAt(back, UlClose, 0)
    ensures Find(front + (u + back), UlClose) == |front| + |u|
  {
    UlCloseFacts();
    FindFromIs(back, UlClose, 0, 0);
    NoOccFind(u, UlClose);
    FindPastFree(u, back, UlClose, 0);
    FindPastFree(front, u + back, UlClose, 0);
  }

  lemma UlCloseFacts()
    ensures UlClose[0] == '<' && LiClose[0] == '<'
    ensures '\n' !in UlClose[1..] && '<' !in UlClose[1..]
    ensures ' ' !in UlClose[..|UlClose| - 1] && '>' !in UlClose[..|UlClose| - 1]
  {
  }

  // ---------------------------------------------------------------- the editor view

  const TextareaOpen: string := "<textarea>"
  const TextareaClose: string := "</textarea>"

  /** `<textarea>{m.strip()}</textarea>` for each item. */
  function Boxed(items: seq<string>): seq<string> {
    seq(|items|, k requires 0 <= k < |items| => TextareaOpen + (Strip(items[k]) + TextareaClose))
  }

  /** The `slides_html` an editor renders for a list region: one text box per item, one per line. */
  function BoxedView(region: string): string {
    Join(ItemSep, Wrap(Boxed(LiItems(region))))
  }

  /** Reading the view back with the item scanner gives one text box per item of the region, holding the item stripped. */
  lemma BoxedViewItems(region: string)
    ensures LiItems(BoxedView(region)) == Boxed(LiItems(region))
  {
    var items := LiItems(region);
    var boxes := Boxed(items);
    LiItemsFree(region);
    forall k | 0 <= k < |boxes| ensures NoOcc(boxes[k], LiClose) {
      StripNoOcc(items[k], LiClose);
      BoxFree(Strip(items[k]));
    }
    SeparatorFacts();
    LiJoin([], ItemSep, boxes, []);
    assert [] + (Join(ItemSep, Wrap(boxes)) + []) == BoxedView(region);
  }

  lemma BoxFree(x: string)
    requires NoOcc(x, LiClose)
    ensures NoOcc(TextareaOpen + (x + TextareaClose), LiClose)
  {
    BoxClosePlain();
    NoOccEmpty(LiClose);
    NoOccTagFront(TextareaClose, [], LiClose);
    assert TextareaClose + [] == TextareaClose;
    NoOccConcat(x, TextareaClose, LiClose);
    NoOccTagFront(TextareaOpen, x + TextareaClose, LiClose);
  }

  lemma BoxClosePlain()
    ensures '<' !in TextareaOpen[1..] && Departs(TextareaOpen, LiClose)
    ensures '<' !in TextareaClose[1..] && Departs(TextareaClose, LiClose)
  {
  }

  // ---------------------------------------------------------------- links to a slide repository

  /** The characters GitHub allows in user and repository names. */
  predicate NameChars(s: string) {
    forall c :: c in s ==> ('a' <= c <= 'z') || ('A' <= c <= 'Z') || ('0' <= c <= '9') || c == '-' || c == '_' || c == '.'
  }

  /** Such a name holds no markup, no path separator, no quote and no line break. */
  lemma NameCharsSafe(s: string)
    requires NameChars(s)
    ensures Plain(s) && '/' !in s && '"' !in s && '\n' !in s && '>' !in s
  {
  }

  /** The literal start of `<a href="https://USER\.github\.io/([^/]+)/">`. */
  function LinkPrefix(user: string): string {
    "<a href=\"https://" + user + ".github.io/"
  }

  /** The longest run of characters other than `/` at the start of `t`. */
  function NameRun(t: string): (n: nat)
    ensures n <= |t| && '/' !in t[..n]
    ensures n < |t| ==> t[n] == '/'
  {
    if t == [] || t[0] == '/' then 0
    else
      var n := 1 + NameRun(t[1..]);
      assert t[..n] == [t[0]] + t[1..][..n - 1];
      n
  }

  /** The pattern `PRE([^/]+)/">` tried where `pre` occurs: the group, when the run is followed by `/">`. */
  function LinkAt(s: string, pre: string, p: nat): Option<string>
    requires OccursAt(s, pre, p)
  {
    var t := s[p + |pre|..];
    var n := NameRun(t);
    if n > 0 && StartsWith(t[n..], "/\">") then Some(t[..n]) else None
  }

  /** `re.search` of `PRE([^/]+)/">` in `s[from:]`: the leftmost start where it matches. */
  function LinkFrom(s: string, pre: string, from: nat): (r: Option<string>)
    requires pre != []
    ensures r.Some? ==> r.value != [] && '/' !in r.value
    ensures r.Some? ==> exists p :: from <= p && OccursAt(s, pre + r.value + "/\">", p)
    decreases |s| - from
  {
    var p := FindFrom(s, pre, from);
    if p < 0 then None
    else
      FindFromFirst(s, pre, from);
      match LinkAt(s, pre, p)
      case Some(name) =>
        LinkAtOccurs(s, pre, p);
        Some(name)
      case None => LinkFrom(s, pre, p + 1)
  }

  /** The repository an item links to, if any. */
  function LinkOf(li: string, user: string): Option<string> {
    LinkFrom(li, LinkPrefix(user), 0)
  }

  lemma LinkAtOccurs(s: string, pre: string, p: nat)
    requires OccursAt(s, pre, p) && LinkAt(s, pre, p).Some?
    ensures OccursAt(s, pre + LinkAt(s, pre, p).value + "/\">", p)
  {
    var t := s[p + |pre|..];
    var n := NameRun(t);
    var tag := pre + t[..n] + "/\">";
    assert t[n..][..3] == "/\">";
    assert s[p..p + |tag|] == s[p..p + |pre|] + t[..n] + t[n..][..3];
  }

  lemma {:induction false} NameRunIs(t: string, n: nat)
    requires n < |t| && '/' !in t[..n] && t[n] == '/'
    ensures NameRun(t) == n
  {
    if n > 0 {
      assert t[1..][..n - 1] == t[..n][1..];
      assert t[0] == t[..n][0];
      NameRunIs(t[1..], n - 1);
    }
  }

  /** Where the whole tag `PRE NAME/">` occurs at or after `from`, the search succeeds. */
  lemma {:induction false} LinkFound(s: string, pre: string, from: nat, p: nat, name: string)
    requires pre != [] && from <= p && name != [] && '/' !in name
    requires OccursAt(s, pre + name + "/\">", p)
    ensures LinkFrom(s, pre, from).Some?
    decreases p - from
  {
    LinkFoundHere(s, pre, p, name);
    var q := FindFrom(s, pre, from);
    assert 0 <= q <= p && OccursAt(s, pre, q) by {
      FindFromFirst(s, pre, from);
    }
    if LinkAt(s, pre, q).Some? {
      assert LinkFrom(s, pre, from) == LinkAt(s, pre, q);
    } else {
      assert q < p;
      LinkFound(s, pre, q + 1, p, name);
      assert LinkFrom(s, pre, from) == LinkFrom(s, pre, q + 1);
    }
  }

  /** Where the whole tag occurs, the pattern tried at that place yields its name. */
  lemma LinkFoundHere(s: string, pre: string, p: nat, name: string)
    requires name != [] && '/' !in name
    requires OccursAt(s, pre + name + "/\">", p)
    ensures OccursAt(s, pre, p) && LinkAt(s, pre, p) == Some(name)
  {
    OccursSplit(s, pre + name, "/\">", p);
    OccursSplit(s, pre, name, p);
    var t := s[p + |pre|..];
    var n := |name|;
    assert t[..n] == s[p + |pre|..p + |pre| + n] == name;
    assert t[n..][..3] == s[p + |pre| + n..p + |pre| + n + 3] == "/\">";
    assert t[n] == t[n..][..3][0];
    NameRunIs(t, n);
  }

  /** What the search finds in text that holds no `pre` before the tag `PRE NAME/">`. */
  lemma LinkAfter(front: string, pre: string, name: string, rest: string)
    requires pre != [] && NoOcc(front, pre) && Seam(front, pre + (name + ("/\">" + rest)), pre)
    requires name != [] && '/' !in name
    ensures LinkFrom(front + (pre + (name + ("/\">" + rest))), pre, 0) == Some(name)
  {
    var tag := pre + name + "/\">";
    var s := front + (pre + (name + ("/\">" + rest)));
    assert s == front + (tag + rest);
    PrefixAfterFree(front, pre, name + ("/\">" + rest));
    TagAfter(front, tag, rest);
    LinkFoundHere(s, pre, |front|, name);
  }

  lemma PrefixAfterFree(front: string, pre: string, tail: string)
    requires pre != [] && NoOcc(front, pre) && Seam(front, pre + tail, pre)
    ensures FindFrom(front + (pre + tail), pre, 0) == |front|
  {
    FindFromFirst(front, pre, 0);
    FindPastFree(front, pre + tail, pre, 0);
    assert (pre + tail)[..|pre|] == pre;
    FindFromIs(pre + tail, pre, 0, 0);
  }

  lemma TagAfter(front: string, tag: string, rest: string)
    ensures OccursAt(front + (tag + rest), tag, |front|)
  {
    OccursRight(front, tag + rest, tag, |front|);
    assert (tag + rest)[0..|tag|] == tag;
  }

  /** What `re.search` finds in an item that opens with such a tag. */
  lemma LinkOfTagged(user: string, repo: string, rest: string)
    requires Plain(user) && repo != [] && '/' !in repo
    ensures LinkOf(LiOpen + (LinkPrefix(user) + (repo + ("/\">" + rest))), user) == Some(repo)
  {
    var pre := LinkPrefix(user);
    assert pre == "<a href=\"https://" + (user + ".github.io/");
    assert '<' !in pre[1..] by {
      assert pre[1..] == "a href=\"https://" + (user + ".github.io/");
    }
    NoOccShort(LiOpen, pre);
    LinkAfter(LiOpen, pre, repo, rest);
  }

  /** The repositories that `items` link to. */
  function LinkSet(items: seq<string>, user: string): set<string> {
    if items == [] then {}
    else
      var rest := LinkSet(items[1..], user);
      match LinkOf(items[0], user) case Some(n) => {n} + rest case None => rest
  }

  /** A name is collected exactly when some item's link search finds it. */
  lemma {:induction false} LinkSetMembers(items: seq<string>, user: string, name: string)
    ensures name in LinkSet(items, user) <==> exists k :: 0 <= k < |items| && LinkOf(items[k], user) == Some(name)
  {
    if items != [] {
      LinkSetMembers(items[1..], user, name);
      if name in LinkSet(items[1..], user) {
        var k :| 0 <= k < |items[1..]| && LinkOf(items[1..][k], user) == Some(name);
        assert items[k + 1] == items[1..][k];
      }
      forall k | 1 <= k < |items| && LinkOf(items[k], user) == Some(name) ensures name in LinkSet(items[1..], user) {
        assert items[1..][k - 1] == items[k];
      }
    }
  }

  lemma {:induction false} LinkSetConcat(a: seq<string>, b: seq<string>, user: string)
    ensures LinkSet(a + b, user) == LinkSet(a, user) + LinkSet(b, user)
  {
    if a == [] {
      assert a + b == b;
    } else {
      assert (a + b)[1..] == a[1..] + b;
      LinkSetConcat(a[1..], b, user);
    }
  }

  /** The loop that fills `existing_links` from the items of the list region. */
  method CollectLinks(items: seq<string>, user: string) returns (links: set<string>)
    ensures links == LinkSet(items, user)
  {
    links := {};
    var i := 0;
    while i < |items|
      invariant 0 <= i <= |items|
      invariant links == LinkSet(items[..i], user)
    {
      LinkSetConcat(items[..i], [items[i]], user);
      assert items[..i + 1] == items[..i] + [items[i]];
      var found := LinkOf(items[i], user);
      if found.Some? {
        links := links + {found.value};
      }
      i := i + 1;
    }
    assert items[..i] == items;
  }

  // ---------------------------------------------------------------- the repositories that get an entry

  /** `https://USER.github.io/REPO/`. */
  function PagesLink(user: string, repo: string): string {
    "https://" + user + ".github.io/" + repo + "/"
  }

  /** A link made of names without markup has no markup. */
  lemma PagesLinkPlain(user: string, repo: string)
    requires Plain(user) && Plain(repo)
    ensures Plain(PagesLink(user, repo))
  {
    assert Plain("https://") && Plain(".github.io/") && Plain("/");
  }

  /** A repository that gets a new entry: not linked yet, with a README that is not blank. */
  predicate Fresh(repo: string, existing: set<string>, readmes: map<string, string>) {
    repo !in existing && repo in readmes && Strip(readmes[repo]) != []
  }

  /** The repositories that get an entry, in the order of the listing. */
  function NewNames(repos: seq<string>, existing: set<string>, readmes: map<string, string>): (r: seq<string>)
    ensures |r| <= |repos|
    ensures forall x :: x in r <==> x in repos && Fresh(x, existing, readmes)
  {
    if repos == [] then []
    else (if Fresh(repos[0], existing, readmes) then [repos[0]] else []) + NewNames(repos[1..], existing, readmes)
  }

  lemma {:induction false} NewNamesSnoc(repos: seq<string>, x: string, existing: set<string>, readmes: map<string, string>)
    ensures NewNames(repos + [x], existing, readmes) == NewNames(repos, existing, readmes) + (if Fresh(x, existing, readmes) then [x] else [])
  {
    if repos == [] {
      assert repos + [x] == [x];
    } else {
      assert (repos + [x])[1..] == repos[1..] + [x];
      NewNamesSnoc(repos[1..], x, existing, readmes);
    }
  }

  /** What the names and the READMEs of the listing are made of. */
  predicate SafeListing(user: string, names: seq<string>, readmes: map<string, string>) {
    && NameChars(user)
    && (forall n :: n in names ==> NameChars(n))
    && (forall n :: n in readmes ==> Plain(readmes[n]))
  }

  // ---------------------------------------------------------------- the README of a slide repository

  predicate HeadingChar(c: char) {
    c == '#' || c == ' '
  }

  predicate Hash(c: char) {
    c == '#'
  }

  /**
   * `lines[0].strip('# ').strip()` when the first line starts with `#`, else
   * the repository name (`lines` is never empty: it comes from `split`).
   */
  function SlideName(lines: seq<string>, repo: string): (r: string)
    requires lines != []
    ensures StartsWith(lines[0], "#") ==> r == Strip(StripWith(lines[0], HeadingChar))
    ensures !StartsWith(lines[0], "#") ==> r == repo
    ensures forall c :: c in r ==> c in lines[0] || c in repo
  {
    if StartsWith(lines[0], "#") then Strip(StripWith(lines[0], HeadingChar)) else repo
  }

  /** `lines[1:]`. */
  function Later(lines: seq<string>): seq<string> {
    if lines == [] then [] else lines[1..]
  }

  /** A later README line that may go into the description. */
  predicate Kept(line: string) {
    Strip(line) != [] && !StartsWith(line, "View the slide") && !StartsWith(line, "![Thumbnail]")
  }

  // ---------------------------------------------------------------- the README the editors publish

  const ReadmeIntro: string :=
    "\n# Slide Gallery \U{1F3A8}\n\n"
    + "Welcome to the Slide Gallery! This repository hosts a collection of interactive slides. \n\n"
    + "View the live gallery at [https://metinciris.github.io/galeri/](https://metinciris.github.io/galeri/).\n\n"
    + "## Slides Overview\n\n"

  const ReadmeUsage: string :=
    "\n\n## How to Use\n"
    + "- Browse the slides via the links above.\n"
    + "- Each slide is hosted in its own repository (named `gallery-*`).\n"
    + "- This README is auto-updated whenever the gallery changes.\n\n"
    + "Updated automatically on "

  /** The gallery repository's README around the Markdown list; `stamp` is the formatted local time. */
  function ReadmeDocument(mdList: string, stamp: string): (r: string)
    ensures OccursAt(r, mdList, |ReadmeIntro|)
    ensures r[..|ReadmeIntro|] == ReadmeIntro
  {
    var tail := ReadmeUsage + stamp + ".\n    ";
    assert (ReadmeIntro + (mdList + tail))[|ReadmeIntro|..|ReadmeIntro| + |mdList|] == (mdList + tail)[..|mdList|];
    ReadmeIntro + (mdList + tail)
  }
}
