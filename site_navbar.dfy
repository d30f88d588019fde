/**
 * The derivations of the site navbar (src/components/site-navbar.tsx): the
 * route split, the breadcrumb trail, the choice between the sidebar trigger
 * and the breadcrumb, the slug-to-title transform, the avatar-fallback
 * initials and the popover's summary and link lists. The pathname, the
 * narrow-viewport flag and the data record are inputs; the rendered navbar is
 * the value `Navbar` returns.
 */
module SiteNavbar {
  import opened Wrappers
  import opened Text

  // ---------------------------------------------------------------- route split

  /** `s.slice(1)`: everything after the first character ("" stays ""). */
  function DropFirst(s: string): (r: string)
    ensures |r| == if s == [] then 0 else |s| - 1
  {
    if s == [] then [] else s[1..]
  }

  /**
   * `usePathname().slice(1).split("/")`. Empty segments are kept: "/" gives
   * [""], "/a//b" gives ["a", "", "b"], "/a/b/" gives ["a", "b", ""].
   */
  function Segments(pathname: string): (paths: seq<string>)
    ensures |paths| >= 1
    ensures |paths| == Count(DropFirst(pathname), '/') + 1
    ensures Join(paths, '/') == DropFirst(pathname)
    ensures forall k :: 0 <= k < |paths| ==> '/' !in paths[k]
  {
    var rest := DropFirst(pathname);
    SplitCount(rest, '/');
    JoinSplit(rest, '/');
    SplitPartsFree(rest, '/');
    Split(rest, '/')
  }

  lemma SegmentsOfRoot()
    ensures Segments("/") == [""]
  {
  }

  lemma SegmentsKeepEmptyMiddle()
    ensures Segments("/a//b") == ["a", "", "b"]
  {
    assert DropFirst("/a//b") == "a//b";
    SplitAt("a//b", '/', 1);
    assert "a//b"[..1] == "a" && "a//b"[2..] == "/b";
    SplitAt("/b", '/', 0);
    assert "/b"[..0] == "" && "/b"[1..] == "b";
    SplitWhole("b", '/');
    assert Split("a//b", '/') == ["a"] + ([""] + ["b"]);
  }

  lemma SegmentsKeepEmptyLast()
    ensures Segments("/a/b/") == ["a", "b", ""]
  {
    assert DropFirst("/a/b/") == "a/b/";
    SplitAt("a/b/", '/', 1);
    assert "a/b/"[..1] == "a" && "a/b/"[2..] == "b/";
    SplitAt("b/", '/', 1);
    assert "b/"[..1] == "b" && "b/"[2..] == "";
    assert Split("a/b/", '/') == ["a"] + (["b"] + [""]);
  }

  // ---------------------------------------------------------------- slugToTitle

  /** `word.charAt(0).toUpperCase() + word.slice(1)`. */
  function Capitalize(word: string): (r: string)
    ensures |r| == |word|
    ensures word != [] ==> r[0] == Upper(word[0]) && r[1..] == word[1..]
  {
    if word == [] then [] else [Upper(word[0])] + word[1..]
  }

  /** `words.map(Capitalize)`. */
  function CapitalizeEach(words: seq<string>): (caps: seq<string>)
    ensures |caps| == |words|
  {
    if words == [] then [] else [Capitalize(words[0])] + CapitalizeEach(words[1..])
  }

  /** The k-th capitalized word is the k-th word capitalized. */
  lemma {:induction false} CapitalizeEachAt(words: seq<string>)
    ensures forall k :: 0 <= k < |words| ==> CapitalizeEach(words)[k] == Capitalize(words[k])
  {
    if words != [] {
      CapitalizeEachAt(words[1..]);
    }
  }

  /** `slug.split("-").map(Capitalize).join(" ")`. */
  function SlugToTitle(slug: string): (title: string)
    ensures |title| == |slug|
  {
    CapitalizedJoinLength(slug);
    Join(CapitalizeEach(Split(slug, '-')), ' ')
  }

  /** Capitalizing the parts keeps their lengths, and so the length of their join. */
  lemma CapitalizedJoinLength(slug: string)
    ensures |Join(CapitalizeEach(Split(slug, '-')), ' ')| == |slug|
  {
    var parts := Split(slug, '-');
    JoinSplit(slug, '-');
    CapitalizeEachAt(parts);
    JoinSameShape(CapitalizeEach(parts), parts, ' ', '-');
  }

  /** A slug without spaces gives a title with one space per dash. */
  lemma SlugToTitleSpaces(slug: string)
    requires ' ' !in slug
    ensures Count(SlugToTitle(slug), ' ') == Count(slug, '-')
  {
    var parts := Split(slug, '-');
    var caps := CapitalizeEach(parts);
    SplitCount(slug, '-');
    CapitalizeEachAt(parts);
    CapitalizedPartsSpaceFree(slug);
    JoinCount(caps, ' ');
  }

  /** The capitalized parts of a slug without spaces hold no space. */
  lemma CapitalizedPartsSpaceFree(slug: string)
    requires ' ' !in slug
    ensures forall k :: 0 <= k < |Split(slug, '-')| ==> ' ' !in Capitalize(Split(slug, '-')[k])
  {
    var parts := Split(slug, '-');
    SplitPartsFree(slug, '-');
    forall k | 0 <= k < |parts| ensures ' ' !in Capitalize(parts[k]) {
      var cap := Capitalize(parts[k]);
      forall j | 0 <= j < |cap| ensures cap[j] != ' ' {
        assert parts[k][j] in slug;
      }
    }
  }

  /**
   * The title read character by character: every dash becomes a space, a
   * character at the start of the slug or right after a dash is upper-cased,
   * and every other character is kept.
   */
  function TitleCased(slug: string): (r: string)
  {
    seq(|slug|, i requires 0 <= i < |slug| =>
      if slug[i] == '-' then ' '
      else if i == 0 || slug[i - 1] == '-' then Upper(slug[i])
      else slug[i])
  }

  /** A slug with a first dash at `k` is the title of the text before it, a space, and the title of the rest. */
  lemma SlugToTitleAtDash(slug: string, k: nat)
    requires k < |slug| && slug[k] == '-' && '-' !in slug[..k]
    ensures SlugToTitle(slug) == Capitalize(slug[..k]) + " " + SlugToTitle(slug[k + 1..])
  {
    SplitAt(slug, '-', k);
    var tparts := Split(slug[k + 1..], '-');
    var parts := [slug[..k]] + tparts;
    assert parts[1..] == tparts;
    var caps := CapitalizeEach(parts);
    assert caps == [Capitalize(slug[..k])] + CapitalizeEach(tparts);
    assert caps[1..] == CapitalizeEach(tparts);
  }

  /** Without a dash, the character-by-character reading only capitalizes the first character. */
  lemma TitleCasedNoDash(w: string)
    requires '-' !in w
    ensures TitleCased(w) == Capitalize(w)
  {
    forall i | 0 <= i < |w| ensures Capitalize(w)[i] == TitleCased(w)[i] {
      if i > 0 { assert w[i - 1] != '-'; }
    }
  }

  /** The character-by-character reading splits at a dash. */
  lemma TitleCasedAtDash(slug: string, k: nat)
    requires k < |slug| && slug[k] == '-'
    ensures TitleCased(slug) == TitleCased(slug[..k]) + " " + TitleCased(slug[k + 1..])
  {
    var w, t := slug[..k], slug[k + 1..];
    var r := TitleCased(w) + " " + TitleCased(t);
    forall i | 0 <= i < |slug| ensures r[i] == TitleCased(slug)[i] {
      if i < k {
        assert slug[i] == w[i];
        if i > 0 { assert slug[i - 1] == w[i - 1]; }
      } else if i > k {
        assert slug[i] == t[i - k - 1];
        if i > k + 1 { assert slug[i - 1] == t[i - k - 2]; }
      }
    }
  }

  /** slugToTitle agrees with the character-by-character reading. */
  lemma {:induction false} SlugToTitleIsTitleCased(slug: string)
    ensures SlugToTitle(slug) == TitleCased(slug)
    decreases |slug|
  {
    var k := IndexOf(slug, '-');
    if k == |slug| {
      assert slug[..k] == slug;
      SplitWhole(slug, '-');
      TitleCasedNoDash(slug);
    } else {
      SlugToTitleAtDash(slug, k);
      SlugToTitleIsTitleCased(slug[k + 1..]);
      TitleCasedNoDash(slug[..k]);
      TitleCasedAtDash(slug, k);
    }
  }

  /** For the usual ASCII slug the title has the same length, with dashes turned to spaces. */
  lemma SlugToTitleLength(slug: string)
    ensures |SlugToTitle(slug)| == |slug|
    ensures forall i :: 0 <= i < |slug| ==> (SlugToTitle(slug)[i] == ' ' <==> slug[i] == '-' || slug[i] == ' ')
  {
    SlugToTitleIsTitleCased(slug);
    var t := TitleCased(slug);
    forall i | 0 <= i < |slug| ensures t[i] == ' ' <==> slug[i] == '-' || slug[i] == ' ' {
      assert slug[i] != '-' ==> t[i] == slug[i] || t[i] == Upper(slug[i]);
    }
  }

  /** A space-free slug yields one title word per dash-separated part. */
  lemma SlugToTitleWords(slug: string)
    requires ' ' !in slug
    ensures |Split(SlugToTitle(slug), ' ')| == |Split(slug, '-')|
    ensures forall k :: 0 <= k < |Split(slug, '-')| ==>
      Split(SlugToTitle(slug), ' ')[k] == Capitalize(Split(slug, '-')[k])
  {
    var parts := Split(slug, '-');
    var caps := CapitalizeEach(parts);
    SplitPartsFree(slug, '-');
    CapitalizeEachAt(parts);
    forall k | 0 <= k < |caps| ensures ' ' !in caps[k] {
      forall j | 0 <= j < |caps[k]| ensures caps[k][j] != ' ' {
        assert parts[k][j] in slug;
      }
    }
    SplitJoin(caps, ' ');
  }

  /** A two-part slug becomes its two capitalized parts joined by a space. */
  lemma SlugToTitleTwoParts(a: string, b: string)
    requires '-' !in a && '-' !in b
    ensures SlugToTitle(a + "-" + b) == Capitalize(a) + " " + Capitalize(b)
  {
    var slug := a + "-" + b;
    assert slug[..|a|] == a && slug[|a| + 1..] == b;
    SlugToTitleAtDash(slug, |a|);
    SplitWhole(b, '-');
  }

  // The literal is passed as a parameter so that the solver does not unfold it eagerly.
  lemma SlugToTitleOfSearchResults(slug: string)
    requires slug == "search-results"
    ensures SlugToTitle(slug) == "Search Results"
  {
    var a, b := "search", "results";
    assert '-' !in a && '-' !in b;
    assert Capitalize(a) == "Search" by { assert a[0] == 's' && a[1..] == "earch"; }
    assert Capitalize(b) == "Results" by { assert b[0] == 'r' && b[1..] == "esults"; }
    SlugToTitleTwoParts(a, b);
    assert slug == a + "-" + b;
  }

  // The literal is passed as a parameter so that the solver does not unfold it eagerly.
  lemma SlugToTitleOfSingleLetter(slug: string)
    requires slug == "x"
    ensures SlugToTitle(slug) == "X"
  {
    SplitWhole(slug, '-');
  }

  // ---------------------------------------------------------------- breadcrumb trail

  /** One rendered element of the breadcrumb list. */
  datatype Crumb =
    | CrumbLink(text: string, href: string)  // BreadcrumbItem holding a BreadcrumbLink
    | CrumbSeparator                          // BreadcrumbSeparator
    | CrumbPage(text: string)                 // BreadcrumbItem holding the BreadcrumbPage

  /**
   * The fragments rendered by `paths.slice(0, -1).map((p, i) => ...)`, for the
   * run `ps` of segments whose first element has index `i` in a list of `n`
   * segments: a link to "/" + p, followed by a separator when `i < n - 1`.
   */
  function LinkFragments(ps: seq<string>, i: nat, n: nat): (r: seq<Crumb>)
    ensures |ps| <= |r| <= 2 * |ps|
    ensures i + |ps| < n ==> |r| == 2 * |ps|
  {
    if ps == [] then []
    else
      [CrumbLink(SlugToTitle(ps[0]), "/" + ps[0])]
      + (if i < n - 1 then [CrumbSeparator] else [])
      + LinkFragments(ps[1..], i + 1, n)
  }

  /** The whole breadcrumb list for the segments `paths` (lines 60-74). */
  function Trail(paths: seq<string>): (t: seq<Crumb>)
    requires |paths| >= 1
    ensures |t| == 2 * |paths| - 1
    ensures t[|t| - 1] == CrumbPage(SlugToTitle(paths[|paths| - 1]))
  {
    var n := |paths|;
    LinkFragments(paths[..n - 1], 0, n) + [CrumbPage(SlugToTitle(paths[n - 1]))]
  }

  /**
   * Item j of the alternating fragments of `ps`: for even j the link for
   * segment j / 2, for odd j a separator.
   */
  function Fragment(ps: seq<string>, j: nat): Crumb
    requires j / 2 < |ps|
  {
    if j % 2 == 0 then CrumbLink(SlugToTitle(ps[j / 2]), "/" + ps[j / 2]) else CrumbSeparator
  }

  lemma FragmentShift(ps: seq<string>, j: nat)
    requires 2 <= j && j / 2 < |ps|
    ensures Fragment(ps, j) == Fragment(ps[1..], j - 2)
  {
    assert (j - 2) / 2 == j / 2 - 1 && (j - 2) % 2 == j % 2;
  }

  /** A segment whose index passes the separator test contributes a link and a separator. */
  lemma LinkFragmentsCons(ps: seq<string>, i: nat, n: nat)
    requires ps != [] && i < n - 1
    ensures LinkFragments(ps, i, n) ==
      [CrumbLink(SlugToTitle(ps[0]), "/" + ps[0]), CrumbSeparator] + LinkFragments(ps[1..], i + 1, n)
  {
  }

  /**
   * Every index of `paths.slice(0, -1)` passes the separator test, so the
   * fragments alternate link, separator, link, separator, ...
   */
  lemma {:induction false} LinkFragmentsAlternate(ps: seq<string>, i: nat, n: nat)
    requires i + |ps| < n
    ensures |LinkFragments(ps, i, n)| == 2 * |ps|
    ensures forall j :: 0 <= j < 2 * |ps| ==> LinkFragments(ps, i, n)[j] == Fragment(ps, j)
  {
    if ps != [] {
      var rest := LinkFragments(ps[1..], i + 1, n);
      LinkFragmentsAlternate(ps[1..], i + 1, n);
      LinkFragmentsCons(ps, i, n);
      var f := [CrumbLink(SlugToTitle(ps[0]), "/" + ps[0]), CrumbSeparator] + rest;
      assert f[0] == Fragment(ps, 0);
      assert f[1] == Fragment(ps, 1);
      forall j | 2 <= j < 2 * |ps| ensures f[j] == Fragment(ps, j) {
        FragmentShift(ps, j);
      }
    }
  }

  /**
   * The trail for n segments: n - 1 links, each followed by a separator, then
   * one page item. Link k is labelled with the title of segment k and points
   * at "/" + segment k; the page is labelled with the title of the last segment.
   */
  lemma TrailShape(paths: seq<string>)
    requires |paths| >= 1
    ensures |Trail(paths)| == 2 * (|paths| - 1) + 1
    ensures forall j :: 0 <= j < 2 * (|paths| - 1) ==>
      Trail(paths)[j] ==
        if j % 2 == 0 then CrumbLink(SlugToTitle(paths[j / 2]), "/" + paths[j / 2]) else CrumbSeparator
    ensures Trail(paths)[2 * (|paths| - 1)] == CrumbPage(SlugToTitle(paths[|paths| - 1]))
  {
    var n := |paths|;
    LinkFragmentsAlternate(paths[..n - 1], 0, n);
  }

  /** How many link items, separators and page items a list of crumbs holds. */
  datatype Counts = Counts(links: nat, separators: nat, pages: nat)

  function Tally(t: seq<Crumb>): Counts
  {
    if t == [] then Counts(0, 0, 0)
    else
      var c := Tally(t[1..]);
      match t[0]
      case CrumbLink(_, _) => c.(links := c.links + 1)
      case CrumbSeparator => c.(separators := c.separators + 1)
      case CrumbPage(_) => c.(pages := c.pages + 1)
  }

  lemma {:induction false} TallyAppend(a: seq<Crumb>, b: seq<Crumb>)
    ensures Tally(a + b).links == Tally(a).links + Tally(b).links
    ensures Tally(a + b).separators == Tally(a).separators + Tally(b).separators
    ensures Tally(a + b).pages == Tally(a).pages + Tally(b).pages
  {
    if a != [] {
      TallyAppend(a[1..], b);
      assert (a + b)[0] == a[0];
      assert (a + b)[1..] == a[1..] + b;
    } else {
      assert a + b == b;
    }
  }

  lemma {:induction false} LinkFragmentsTally(ps: seq<string>, i: nat, n: nat)
    requires i + |ps| < n
    ensures Tally(LinkFragments(ps, i, n)) == Counts(|ps|, |ps|, 0)
  {
    if ps != [] {
      LinkFragmentsTally(ps[1..], i + 1, n);
      var head := [CrumbLink(SlugToTitle(ps[0]), "/" + ps[0]), CrumbSeparator];
      assert LinkFragments(ps, i, n) == head + LinkFragments(ps[1..], i + 1, n);
      TallyAppend(head, LinkFragments(ps[1..], i + 1, n));
    }
  }

  /** Separators and links are equal in number, n - 1 each, and there is exactly one page item. */
  lemma TrailTally(paths: seq<string>)
    requires |paths| >= 1
    ensures Tally(Trail(paths)) == Counts(|paths| - 1, |paths| - 1, 1)
  {
    var n := |paths|;
    LinkFragmentsTally(paths[..n - 1], 0, n);
    TallyAppend(LinkFragments(paths[..n - 1], 0, n), [CrumbPage(SlugToTitle(paths[n - 1]))]);
  }

  /** The target a hierarchical breadcrumb would use: the path up to and including segment i. */
  function CumulativeHref(paths: seq<string>, i: nat): string
    requires i < |paths|
  {
    "/" + Join(paths[..i + 1], '/')
  }

  /**
   * Link i of the trail points at "/" + segment i. That is the cumulative
   * prefix of the path only for the first link: from the second link on, the
   * target drops the segments before it.
   */
  lemma FlatHrefIsCumulativeOnlyAtFirst(paths: seq<string>, i: nat)
    requires i < |paths|
    ensures "/" + paths[i] == CumulativeHref(paths, i) <==> i == 0
  {
    if i == 0 {
      assert paths[..1] == [paths[0]];
    } else {
      assert paths[..i + 1] == paths[..i] + [paths[i]];
      JoinSnoc(paths[..i], paths[i], '/');
      assert |CumulativeHref(paths, i)| > |"/" + paths[i]|;
    }
  }

  // ---------------------------------------------------------------- sidebar trigger or breadcrumb

  /**
   * The left slot of the navbar (lines 55-77): whether the sidebar trigger is
   * rendered, and the breadcrumb list when it is rendered.
   */
  datatype Leading = Leading(sidebarTrigger: bool, breadcrumb: Option<seq<Crumb>>)

  /** `isMobile && <SidebarTrigger/>` and `!isMobile && paths.length > 1 && <Breadcrumb>...`. */
  function LeadingSlot(isMobile: bool, paths: seq<string>): (v: Leading)
    requires |paths| >= 1
    ensures v.sidebarTrigger <==> isMobile
    ensures v.breadcrumb.Some? <==> !isMobile && |paths| > 1
    ensures !(v.sidebarTrigger && v.breadcrumb.Some?)
    ensures v.breadcrumb.Some? ==> v.breadcrumb.value == Trail(paths)
  {
    Leading(isMobile, if !isMobile && |paths| > 1 then Some(Trail(paths)) else None)
  }

  /**
   * The two views are never shown together, and on a wide viewport the
   * breadcrumb shows exactly one link per segment but the last.
   */
  lemma LeadingSlotTally(isMobile: bool, pathname: string)
    ensures var v := LeadingSlot(isMobile, Segments(pathname));
      !(v.sidebarTrigger && v.breadcrumb.Some?)
      && (v.breadcrumb.Some? ==>
            Tally(v.breadcrumb.value) == Counts(|Segments(pathname)| - 1, |Segments(pathname)| - 1, 1)
            && Count(DropFirst(pathname), '/') >= 1)
      && (!isMobile && Count(DropFirst(pathname), '/') >= 1 ==> v.breadcrumb.Some?)
  {
    TrailTally(Segments(pathname));
  }

  // ---------------------------------------------------------------- avatar fallback

  /** `word.charAt(0).toUpperCase()`: the first character, upper-cased, or "" for an empty word. */
  function FirstUpper(word: string): (r: string)
    ensures |r| <= 1
    ensures r == [] <==> word == []
    ensures word != [] ==> r[0] == Upper(word[0])
  {
    if word == [] then "" else [Upper(word[0])]
  }

  /** `username.split(" ").slice(0, 2).map(FirstUpper)`, rendered one after the other. */
  function Initials(username: string): (r: string)
    ensures |r| <= 2
  {
    var words := Split(username, ' ');
    var taken := if |words| < 2 then words else words[..2];
    var firsts := seq(|taken|, k requires 0 <= k < |taken| => FirstUpper(taken[k]));
    ConcatShort(firsts);
    Concat(firsts)
  }

  /**
   * The initials read off the username directly: its first character when
   * that is not a space, and the character after the first space when there is
   * one and it is not a space, each upper-cased.
   */
  function InitialsByPosition(username: string): string
  {
    var k := IndexOf(username, ' ');
    (if k > 0 then [Upper(username[0])] else [])
    + (if k + 1 < |username| && username[k + 1] != ' ' then [Upper(username[k + 1])] else [])
  }

  lemma FirstUpperOfSplitHead(s: string)
    ensures FirstUpper(Split(s, ' ')[0]) == if s != [] && s[0] != ' ' then [Upper(s[0])] else []
  {
    SplitHead(s, ' ');
  }

  /**
   * The initials are at most two characters, the upper-cased first characters
   * of the first two words, an empty word contributing nothing.
   */
  lemma InitialsIsByPosition(username: string)
    ensures Initials(username) == InitialsByPosition(username)
    ensures |Initials(username)| <= 2
  {
    var k := IndexOf(username, ' ');
    FirstUpperOfSplitHead(username);
    if k == |username| {
      assert username[..k] == username;
      InitialsOfOneWord(username);
    } else {
      FirstUpperOfSplitHead(username[k + 1..]);
      InitialsOfTwoWords(username, k);
    }
  }

  /** A username without a space gives the initial of its only word. */
  lemma InitialsOfOneWord(username: string)
    requires ' ' !in username
    ensures Initials(username) == FirstUpper(username)
  {
    SplitWhole(username, ' ');
    var words := Split(username, ' ');
    var firsts := seq(|words|, j requires 0 <= j < |words| => FirstUpper(words[j]));
    assert firsts == [FirstUpper(username)];
    assert Concat(firsts) == FirstUpper(username) + Concat([]);
  }

  /** A username whose first space is at k gives the initials of the text before it and of the next word. */
  lemma InitialsOfTwoWords(username: string, k: nat)
    requires k < |username| && username[k] == ' ' && ' ' !in username[..k]
    ensures Initials(username) == FirstUpper(username[..k]) + FirstUpper(Split(username[k + 1..], ' ')[0])
  {
    SplitAt(username, ' ', k);
    var words := Split(username, ' ');
    var w0, w1 := username[..k], Split(username[k + 1..], ' ')[0];
    assert words[0] == w0 && words[1] == w1;
    var taken := words[..2];
    var firsts := seq(|taken|, j requires 0 <= j < |taken| => FirstUpper(taken[j]));
    assert firsts == [FirstUpper(w0), FirstUpper(w1)];
    assert Concat(firsts) == FirstUpper(w0) + Concat([FirstUpper(w1)]);
    assert Concat([FirstUpper(w1)]) == FirstUpper(w1) + Concat([]);
  }

  // The literal is passed as a parameter so that the solver does not unfold it eagerly.
  lemma InitialsExample(username: string)
    requires username == "jane doe smith"
    ensures Initials(username) == "JD"
  {
    InitialsIsByPosition(username);
    assert IndexOf(username, ' ') == 4 by {
      assert username[4] == ' ' && username[..4] == "jane";
    }
  }

  // ---------------------------------------------------------------- popover and action

  datatype SummaryEntry = SummaryEntry(key: string, val: real)
  datatype NavLink = NavLink(href: string, title: string, description: string)
  datatype ActionLink = ActionLink(href: string, text: string)

  /** `SiteNavbarProps.data`: the read-only record the parent supplies. */
  datatype NavbarData = NavbarData(
    username: string,
    profile: string,
    avatar: string,
    summary: seq<SummaryEntry>,
    links: seq<NavLink>,
    button: ActionLink)

  /** One summary line: the key, then the value. */
  datatype SummaryRow = SummaryRow(key: string, value: real)

  /** One `ListItem`: an anchor to `href` holding the title and the description. */
  datatype MenuItem = MenuItem(href: string, title: string, body: string)

  /** `data.summary.map(...)` (lines 110-120). */
  function SummaryRows(summary: seq<SummaryEntry>): (rows: seq<SummaryRow>)
    ensures |rows| == |summary|
    ensures forall k :: 0 <= k < |summary| ==>
      rows[k].key == summary[k].key && rows[k].value == summary[k].val
  {
    if summary == [] then []
    else [SummaryRow(summary[0].key, summary[0].val)] + SummaryRows(summary[1..])
  }

  /** `data.links.map(...)` (lines 125-129). */
  function MenuItems(links: seq<NavLink>): (items: seq<MenuItem>)
    ensures |items| == |links|
    ensures forall k :: 0 <= k < |links| ==>
      items[k].href == links[k].href && items[k].title == links[k].title && items[k].body == links[k].description
  {
    if links == [] then []
    else [MenuItem(links[0].href, links[0].title, links[0].description)] + MenuItems(links[1..])
  }

  /** The popover menu: trigger link, profile card with avatar, name and summary, then the link list. */
  datatype Popover = Popover(
    triggerHref: string,
    cardHref: string,
    avatarSrc: string,
    avatarFallback: string,
    name: string,
    rows: seq<SummaryRow>,
    items: seq<MenuItem>)

  /** Everything the navbar renders that depends on its inputs. */
  datatype NavbarView = NavbarView(leading: Leading, menu: Popover, action: ActionLink)

  /** `SiteNavbar({ data })` rendered for the given viewport flag and pathname. */
  function Navbar(data: NavbarData, isMobile: bool, pathname: string): (v: NavbarView)
    ensures !(v.leading.sidebarTrigger && v.leading.breadcrumb.Some?)
    ensures v.leading.breadcrumb.Some? <==> !isMobile && Count(DropFirst(pathname), '/') >= 1
    ensures v.menu.triggerHref == data.profile && v.menu.cardHref == data.profile
    ensures v.menu.avatarSrc == data.avatar && v.menu.name == data.username
    ensures v.menu.avatarFallback == InitialsByPosition(data.username)
    ensures |v.menu.rows| == |data.summary| && |v.menu.items| == |data.links|
    ensures v.action == data.button
  {
    InitialsIsByPosition(data.username);
    NavbarView(
      LeadingSlot(isMobile, Segments(pathname)),
      Popover(data.profile, data.profile, data.avatar, Initials(data.username), data.username,
              SummaryRows(data.summary), MenuItems(data.links)),
      data.button)
  }
}
