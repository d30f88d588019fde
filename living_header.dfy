/**
 * The derivations of the living-section header
 * (src/app/living/_sections/header.tsx): whether the page is the main listing
 * page, whether the header chrome is visible, the search redirect and the back
 * command. The pathname and the search query are inputs; the router calls are
 * returned as command values.
 */
module LivingHeader {
  import opened Wrappers
  import opened Text
  import opened Unicode
  import opened UriComponent

  const MainPath: string := "/living"
  const SearchRoute: string := "/living/search?q="
  const Title: string := "Living"
  const SearchPlaceholder: string := "Search for anything ..."

  /** `pathname.toLowerCase() === "/living"`. */
  predicate IsMainPage(pathname: string)
    ensures IsMainPage(pathname) ==> |pathname| == |MainPath| && pathname[0] == '/'
  {
    LowerString(pathname) == MainPath
  }

  /** `isMainPage || pathname.includes("search")`: the substring test does not ignore case. */
  predicate IsVisible(pathname: string)
    ensures IsVisible(pathname) ==> |pathname| >= |"search"|
  {
    IsMainPage(pathname) || Contains(pathname, "search")
  }

  /** A navigation command issued to the host router. */
  datatype Command = Push(href: string) | Back

  /** The URL `handleSearch` pushes, or the URIError `encodeURIComponent` throws. */
  function SearchTarget(query: seq<CodeUnit>): (r: Result<string, UriError>)
    ensures r.Success? ==> |r.value| >= |SearchRoute| && r.value[..|SearchRoute|] == SearchRoute
  {
    match EncodeUriComponent(query)
    case Failure(e) => Failure(e)
    case Success(component) => Success(SearchRoute + component)
  }

  /** `handleSearch(query)`: the commands it issues, one push of the search target. */
  function HandleSearch(query: seq<CodeUnit>): (r: Result<seq<Command>, UriError>)
    ensures r.Success? <==> SearchTarget(query).Success?
    ensures r.Success? ==> r.value == [Push(SearchTarget(query).value)]
  {
    match SearchTarget(query)
    case Failure(e) => Failure(e)
    case Success(url) => Success([Push(url)])
  }

  /** `handleBack()`: exactly one back command, nothing else computed. */
  function HandleBack(): (r: seq<Command>)
    ensures |r| == 1 && r[0].Back?
  {
    [Back]
  }

  /** The props `HeaderSection` passes to `SiteHeader` besides the two handlers. */
  datatype HeaderProps = HeaderProps(isMainPage: bool, isVisible: bool, title: string, searchPlaceholder: string)

  function Header(pathname: string): (p: HeaderProps)
    ensures p.isMainPage ==> p.isVisible
    ensures p.title == "Living" && p.searchPlaceholder == "Search for anything ..."
  {
    HeaderProps(IsMainPage(pathname), IsVisible(pathname), Title, SearchPlaceholder)
  }

  // ---------------------------------------------------------------- main page

  /** The characters `toLowerCase` turns into `x`: `x` itself and, for a letter, its capital. */
  lemma LowerPreimage(c: char, x: char)
    requires x == '/' || 'a' <= x <= 'z'
    ensures Lower(c) == x <==> c == x || ('a' <= x <= 'z' && c == Upper(x))
  {
  }

  /**
   * The main page is "/living" in any mix of cases and nothing else: no
   * trailing slash, no query, no further segment.
   */
  lemma MainPageIsCaseVariant(pathname: string)
    ensures IsMainPage(pathname) <==>
      |pathname| == |MainPath| && forall i :: 0 <= i < |MainPath| ==>
        pathname[i] == MainPath[i] || pathname[i] == Upper(MainPath[i])
  {
    forall i | 0 <= i < |MainPath| && i < |pathname| {
      LowerPreimage(pathname[i], MainPath[i]);
    }
    if |pathname| == |MainPath| && forall i :: 0 <= i < |MainPath| ==>
        pathname[i] == MainPath[i] || pathname[i] == Upper(MainPath[i]) {
      assert LowerString(pathname) == MainPath;
    }
  }

  // The literal is passed as a parameter so that the solver does not unfold it eagerly.
  lemma MainPageIgnoresCase(upper: string, mixed: string)
    requires upper == "/LIVING" && mixed == "/Living"
    ensures IsMainPage(upper) && IsMainPage(mixed)
  {
    assert LowerString(upper) == MainPath by {
      forall i | 0 <= i < 7 ensures LowerString(upper)[i] == MainPath[i] {
        assert Lower(upper[i]) == MainPath[i];
      }
    }
    assert LowerString(mixed) == MainPath by {
      forall i | 0 <= i < 7 ensures LowerString(mixed)[i] == MainPath[i] {
        assert Lower(mixed[i]) == MainPath[i];
      }
    }
  }

  // The literal is passed as a parameter so that the solver does not unfold it eagerly.
  lemma MainPageIsExact(trailing: string)
    requires trailing == "/living/"
    ensures !IsMainPage(trailing)
  {
    assert |LowerString(trailing)| == 8;
  }

  // ---------------------------------------------------------------- visibility

  /** The header is visible on the main page and wherever "search" occurs, case-sensitively, in the pathname. */
  lemma VisibleIff(pathname: string)
    ensures IsVisible(pathname) <==> IsMainPage(pathname) || exists i :: OccursAt(pathname, "search", i)
    ensures IsMainPage(pathname) ==> IsVisible(pathname)
  {
    ContainsIff(pathname, "search");
  }

  // The literal is passed as a parameter so that the solver does not unfold it eagerly.
  lemma VisibleOnMainPage(main: string)
    requires main == "/living"
    ensures IsMainPage(main) && IsVisible(main)
  {
    assert LowerString(main) == MainPath by {
      forall i | 0 <= i < 7 ensures LowerString(main)[i] == MainPath[i] {
        assert Lower(main[i]) == MainPath[i];
      }
    }
  }

  // The literal is passed as a parameter so that the solver does not unfold it eagerly.
  lemma VisibleOnSearch(search: string)
    requires search == "/living/search?q=shoes"
    ensures !IsMainPage(search) && IsVisible(search)
  {
    assert |LowerString(search)| != 7;
    assert OccursAt(search, "search", 8) by {
      assert search[8..14] == "search";
    }
    ContainsIff(search, "search");
  }

  // The literal is passed as a parameter so that the solver does not unfold it eagerly.
  lemma HiddenElsewhere(item: string, shouting: string)
    requires item == "/living/item/42" && shouting == "/LIVING/SEARCH"
    ensures !IsMainPage(item) && !IsVisible(item)
    ensures !IsMainPage(shouting) && !IsVisible(shouting)
  {
    assert |LowerString(item)| != 7 && |LowerString(shouting)| != 7;
    assert 's' !in item && 's' !in shouting;
    ContainsNeedsFirst(item, "search");
    ContainsNeedsFirst(shouting, "search");
  }

  // ---------------------------------------------------------------- search target

  /**
   * The search target is the search route followed by an escaped component:
   * only uriUnescaped characters and "%XX" triplets, so none of & = # ? / + or
   * space can end the `q` parameter early.
   */
  lemma SearchTargetShape(query: seq<CodeUnit>)
    requires SearchTarget(query).Success?
    ensures IsEscaped(SearchTarget(query).value[|SearchRoute|..])
    ensures forall j :: |SearchRoute| <= j < |SearchTarget(query).value| ==>
      SearchTarget(query).value[j] !in "&=#?/+ "
  {
    var component := EncodeUriComponent(query).value;
    assert SearchTarget(query) == Success(SearchRoute + component);
    EncodeIsEscaped(query);
    NoDelimiterAfterPrefix(SearchRoute, component);
  }

  lemma NoDelimiterAfterPrefix(prefix: string, component: string)
    requires forall j :: 0 <= j < |component| ==> component[j] !in "&=#?/+ "
    ensures (prefix + component)[|prefix|..] == component
    ensures forall j :: |prefix| <= j < |prefix + component| ==> (prefix + component)[j] !in "&=#?/+ "
  {
    var url := prefix + component;
    forall j | |prefix| <= j < |url| ensures url[j] !in "&=#?/+ " {
      assert url[j] == component[j - |prefix|];
    }
  }

  /** Decoding the `q` parameter of the search target gives back the query. */
  lemma SearchTargetRoundTrip(query: seq<CodeUnit>)
    requires SearchTarget(query).Success?
    ensures DecodeUriComponent(SearchTarget(query).value[|SearchRoute|..]) == Some(query)
  {
    EncodeRoundTrip(query);
    assert SearchTarget(query).value[|SearchRoute|..] == EncodeUriComponent(query).value;
  }

  /** The search fails, pushing nothing, exactly when the query holds a lone surrogate. */
  lemma SearchFailsOnLoneSurrogate(query: seq<CodeUnit>)
    ensures HandleSearch(query).Failure? <==> exists i :: LoneSurrogateAt(query, i)
  {
    EncodeFailsOnLoneSurrogate(query);
  }

  /** A query typed as text always produces a push. */
  lemma TextQuerySearches(text: string)
    ensures HandleSearch(Utf16Of(text)).Success?
  {
    EncodeTextSucceeds(seq(|text|, i requires 0 <= i < |text| => text[i] as int as Scalar));
  }

  /**
   * `handleSearch("a b")` navigates to "/living/search?q=a%20b". The query is a
   * parameter so that the solver does not unfold the literal eagerly.
   */
  lemma SearchExample(query: seq<CodeUnit>)
    requires query == ['a' as int, ' ' as int, 'b' as int]
    ensures HandleSearch(query) == Success([Push("/living/search?q=a%20b")])
  {
    var tail := query[1..];
    var last := tail[1..];
    assert last == ['b' as int] && last[1..] == [];
    assert IsUriUnescaped(last[0]) && last[0] as char == 'b';
    assert EncodeUriComponent(last[1..]) == Success("");
    assert [last[0] as char] + "" == "b";
    assert EncodeUriComponent(last) == Success("b");
    assert !IsUriUnescaped(tail[0]);
    assert CodePointAt(tail, 0) == CodePointRecord(' ' as int, 1, false);
    assert Utf8EncodeOne(' ' as int) == [0x20];
    assert Triplet(0x20) == "%20";
    assert Triplets([0x20]) == "%20" + Triplets([]);
    assert Triplets([]) == "" && "%20" + "" == "%20";
    assert Triplets(Utf8EncodeOne(CodePointAt(tail, 0).codePoint as Scalar)) == "%20";
    assert tail[1..] == last;
    assert "%20" + "b" == "%20b";
    assert EncodeUriComponent(tail) == Success("%20b");
    assert IsUriUnescaped(query[0]) && query[0] as char == 'a';
    assert ['a'] + "%20b" == "a%20b";
    assert EncodeUriComponent(query) == Success("a%20b");
    assert SearchRoute + "a%20b" == "/living/search?q=a%20b";
  }
}
