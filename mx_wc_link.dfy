/** The page-link resolver of MaoXian Web Clipper (`MxWcLink`): it turns a
    page expression such as `extPage.setting#hello` or `faq?x=1#anchor` into a
    URL. Names under `extPage.` are pages packaged with the extension; every
    other name is looked up in a per-locale table of pages on the project's
    website or its code-hosting project.

    The two browser inputs are parameters without semantics of their own:
    `getURL` is the extension API that turns a path inside the extension into
    a full URL, and `locale` is the browser's UI locale. */
module MxWcLink {
  import opened JsString

  datatype Error =
    | UnknowPage(pageName: string) // the `UnknowPage` error the JavaScript module throws
    | NoAuthority(root: string)    // `split('//')[1]` is undefined, so `.replace` throws

  datatype Result<T> = Ok(value: T) | Err(error: Error)

  /** The website root and the project root. Each is one string in the
      JavaScript module; two literals here keep the proofs about them cheap. */
  const WebsiteRoot: string := "https://mika-cn.github.io" + "/maoxian-web-clipper"
  const ProjectRoot: string := "https://github.com" + "/mika-cn/maoxian-web-clipper"

  /** The remote pages of the `en` locale: page name to path below the root.
      Each longer path is one string in the JavaScript module and is written
      here as two literals, which keeps the proofs about the table cheap. */
  const EnPaths: map<string, string> := map[
    "home" := "/index.html",
    "faq" := "/faq.html",
    "faq-allow-access-file-urls" := "/faq.html" + "#allow-access-file-urls",
    "native-app" := "/native-app" + "/index.html",
    "offline-page" := "/offline-page" + "/index.html",
    "project.index" := "/",
    "project.issue" := "/issues"
  ]

  /** The remote pages of the `zh-CN` locale. */
  const ZhCNPaths: map<string, string> := map[
    "home" := "/index-zh-CN.html",
    "faq" := "/faq-zh-CN.html",
    "faq-allow-access-file-urls" := "/faq-zh-CN.html" + "#allow-access-file-urls",
    "native-app" := "/native-app" + "/index-zh-CN.html",
    "offline-page" := "/offline-page" + "/index-zh-CN.html",
    "project.index" := "/",
    "project.issue" := "/issues"
  ]

  /** The tables of remote pages, per locale. */
  const RemotePaths: map<string, map<string, string>> := map["en" := EnPaths, "zh-CN" := ZhCNPaths]

  const ExtPagePrefix: string := "extPage."
  const ProjectPrefix: string := "project."

  /** The characters of the regular expression `/[?#]/` that end a page name. */
  const PageNameDelimiters: set<char> := {'?', '#'}

  /** A table entry is usable as the tail of a link: a non-empty path
      (JavaScript's `if (path)` rejects the empty string) without `$`. */
  predicate PlainPath(path: string)
  {
    path != [] && '$' !in path
  }

  /** The locales with a table of their own. */
  lemma RemoteLocales()
    ensures RemotePaths.Keys == {"en", "zh-CN"}
    ensures RemotePaths["en"] == EnPaths && RemotePaths["zh-CN"] == ZhCNPaths
  {
  }

  /** Both locale tables name the same pages. */
  lemma SamePages()
    ensures ZhCNPaths.Keys == EnPaths.Keys
  {
  }

  /** Every path of the `en` table is plain. */
  lemma EnPathsPlain()
    ensures forall name :: name in EnPaths ==> PlainPath(EnPaths[name])
  {
    assert PlainPath("/index.html") && PlainPath("/faq.html");
    assert PlainPath("/faq.html" + "#allow-access-file-urls");
    assert PlainPath("/native-app" + "/index.html");
    assert PlainPath("/offline-page" + "/index.html");
    assert PlainPath("/") && PlainPath("/issues");
  }

  /** Every path of the `zh-CN` table is plain. */
  lemma ZhCNPathsPlain()
    ensures forall name :: name in ZhCNPaths ==> PlainPath(ZhCNPaths[name])
  {
    assert PlainPath("/index-zh-CN.html") && PlainPath("/faq-zh-CN.html");
    assert PlainPath("/faq-zh-CN.html" + "#allow-access-file-urls");
    assert PlainPath("/native-app" + "/index-zh-CN.html");
    assert PlainPath("/offline-page" + "/index-zh-CN.html");
    assert PlainPath("/") && PlainPath("/issues");
  }

  /** Neither root contains `$`. */
  lemma RootsPlain()
    ensures '$' !in WebsiteRoot && '$' !in ProjectRoot
  {
    assert '$' !in "https://mika-cn.github.io" && '$' !in "/maoxian-web-clipper";
    assert '$' !in "https://github.com" && '$' !in "/mika-cn/maoxian-web-clipper";
  }

  /** The table for `locale`, or the `en` table when there is none. */
  function LocalePaths(locale: string): (dict: map<string, string>)
    ensures dict.Keys == EnPaths.Keys
    ensures forall name :: name in dict ==> PlainPath(dict[name])
  {
    RemoteLocales();
    SamePages();
    EnPathsPlain();
    ZhCNPathsPlain();
    if locale in RemotePaths then RemotePaths[locale] else EnPaths
  }

  /** `getRemoteLink`: the website or project URL of a remote page. Whether a
      name resolves does not depend on the locale, and a name that does not
      resolve raises `UnknowPage`. */
  function GetRemoteLink(pageName: string, locale: string): (r: Result<string>)
    ensures r.Ok? <==> pageName in EnPaths
    ensures r.Err? ==> r.error == UnknowPage(pageName)
    ensures r.Ok? ==> '$' !in r.value
  {
    RootsPlain();
    var dict := LocalePaths(locale);
    // `if (path)`: an absent key and an empty path are both falsy
    if pageName in dict && dict[pageName] != [] then
      if StartsWith(pageName, ProjectPrefix) then Ok(ProjectRoot + dict[pageName])
      else Ok(WebsiteRoot + dict[pageName])
    else
      Err(UnknowPage(pageName))
  }

  /** A locale without a table resolves every name exactly as `en` does. */
  lemma UnsupportedLocaleIsEnglish(pageName: string, locale: string)
    requires locale !in RemotePaths
    ensures GetRemoteLink(pageName, locale) == GetRemoteLink(pageName, "en")
  {
  }

  /** A resolved remote link is the project root followed by the table's path
      for `project.` names and the website root followed by it for the others;
      in either case it does not begin with the other root. */
  lemma RemoteLinkRoot(pageName: string, locale: string)
    requires GetRemoteLink(pageName, locale).Ok?
    ensures var link := GetRemoteLink(pageName, locale).value;
      var path := LocalePaths(locale)[pageName];
      if StartsWith(pageName, ProjectPrefix)
      then link == ProjectRoot + path && !StartsWith(link, WebsiteRoot)
      else link == WebsiteRoot + path && !StartsWith(link, ProjectRoot)
  {
    var link := GetRemoteLink(pageName, locale).value;
    assert link[8] == (if StartsWith(pageName, ProjectPrefix) then ProjectRoot[8] else WebsiteRoot[8]);
    assert ProjectRoot[8] != WebsiteRoot[8];
  }

  /** `getExtensionPagePath`: the path of a packaged page, from which the name
      can be read back. */
  function GetExtensionPagePath(name: string): (path: string)
    ensures ExtensionPageName(path) == Some(name)
  {
    var path := "/pages/" + name + ".html";
    assert path[..7] == "/pages/" && path[7..|path| - 5] == name && path[|path| - 5..] == ".html";
    path
  }

  /** The inverse of `GetExtensionPagePath`: the name of the page a path of
      the form `/pages/<name>.html` denotes. */
  function ExtensionPageName(path: string): (name: Option<string>)
  {
    if |path| >= 12 && path[..7] == "/pages/" && path[|path| - 5..] == ".html"
    then Some(path[7..|path| - 5])
    else None
  }

  /** Different pages have different paths. */
  lemma ExtensionPagePathInjective(a: string, b: string)
    requires GetExtensionPagePath(a) == GetExtensionPagePath(b)
    ensures a == b
  {
    assert Some(a) == ExtensionPageName(GetExtensionPagePath(a));
  }

  /** `pageName.split('.')[1]`, the text between the first and the second `.`;
      when there is no `.` the element is `undefined`, which the template
      string of `getExtensionPagePath` renders as "undefined". */
  function DotSegment(pageName: string): (name: string)
    ensures '.' !in pageName ==> name == "undefined"
    ensures StartsWith(pageName, ExtPagePrefix) ==>
      && 8 + |name| <= |pageName| && pageName[8..8 + |name|] == name
      && '.' !in name
      && (8 + |name| == |pageName| || pageName[8 + |name|] == '.')
  {
    var parts := Split(pageName, ".");
    SplitCharHead(pageName, '.');
    SecondPieceAfterPrefix(pageName);
    if |parts| >= 2 then parts[1] else "undefined"
  }

  /** Under the `extPage.` prefix, the first `.` is the prefix's own, so the
      second piece of the split is the longest dot-free text after it. */
  lemma SecondPieceAfterPrefix(pageName: string)
    ensures StartsWith(pageName, ExtPagePrefix) ==> var parts := Split(pageName, ".");
      && |parts| >= 2
      && 8 + |parts[1]| <= |pageName| && pageName[8..8 + |parts[1]|] == parts[1]
      && '.' !in parts[1]
      && (8 + |parts[1]| == |pageName| || pageName[8 + |parts[1]|] == '.')
  {
    if StartsWith(pageName, ExtPagePrefix) {
      assert pageName[..8] == ExtPagePrefix;
      forall j | 0 <= j < 7 ensures !OccursAt(pageName, ".", j) {
        OccursAtChar(pageName, '.', j);
        assert pageName[j] == ExtPagePrefix[j];
      }
      OccursAtChar(pageName, '.', 7);
      assert IndexOf(pageName, ".") == Some(7);
      var tail := pageName[8..];
      assert Split(pageName, ".") == [pageName[..7]] + Split(tail, ".");
      SplitCharHead(tail, '.');
      var p1 := Split(tail, ".")[0];
      assert tail[..|p1|] == pageName[8..8 + |p1|];
    }
  }

  /** `getExtensionPageLink`: the full URL of a packaged page. Under
      `extPage.` it is the URL of the page named by the dot-free text after
      the prefix; a name without any `.` gives the page `undefined`. */
  function GetExtensionPageLink(pageName: string, getURL: string -> string): (link: string)
    ensures '.' !in pageName ==> link == getURL("/pages/undefined.html")
    ensures StartsWith(pageName, ExtPagePrefix) ==>
      exists k :: 8 <= k <= |pageName| && '.' !in pageName[8..k]
        && (k == |pageName| || pageName[k] == '.')
        && link == getURL("/pages/" + pageName[8..k] + ".html")
  {
    var name := DotSegment(pageName);
    assert StartsWith(pageName, ExtPagePrefix) ==> pageName[8..8 + |name|] == name;
    assert "/pages/" + "undefined" + ".html" == "/pages/undefined.html";
    getURL(GetExtensionPagePath(name))
  }

  /** The page name of an expression (`exp.split(/[?#]/)[0]`): its longest
      prefix holding no `?` and no `#`. */
  function PageName(exp: string): (name: string)
    ensures |name| <= |exp| && name == exp[..|name|]
    ensures forall i :: 0 <= i < |name| ==> name[i] != '?' && name[i] != '#'
    ensures |name| == |exp| || exp[|name|] == '?' || exp[|name|] == '#'
  {
    SplitOnAnyHead(exp, PageNameDelimiters);
    SplitOnAny(exp, PageNameDelimiters)[0]
  }

  /** The page name is the only prefix that holds no `?`/`#` and ends at one
      or at the end of the expression; so without `?` and `#` it is the whole
      expression. */
  lemma PageNameUnique(exp: string, k: nat)
    requires k <= |exp|
    requires forall i :: 0 <= i < k ==> exp[i] != '?' && exp[i] != '#'
    requires k == |exp| || exp[k] == '?' || exp[k] == '#'
    ensures PageName(exp) == exp[..k]
  {
  }

  /** The link a page name resolves to: a packaged page under `extPage.`,
      a remote page otherwise. */
  function PageLink(pageName: string, locale: string, getURL: string -> string): (r: Result<string>)
    ensures r.Err? <==> !StartsWith(pageName, ExtPagePrefix) && pageName !in EnPaths
    ensures r.Err? ==> r.error == UnknowPage(pageName)
  {
    if StartsWith(pageName, ExtPagePrefix) then Ok(GetExtensionPageLink(pageName, getURL))
    else GetRemoteLink(pageName, locale)
  }

  /** A name `extPage.<seg>` or `extPage.<seg>.<more>` resolves to the
      packaged page `<seg>`, whatever the locale. */
  lemma ExtensionRouting(pageName: string, seg: string, rest: string, locale: string, getURL: string -> string)
    requires pageName == ExtPagePrefix + seg + rest
    requires '.' !in seg && (rest == [] || rest[0] == '.')
    ensures PageLink(pageName, locale, getURL) == Ok(getURL("/pages/" + seg + ".html"))
  {
    assert pageName[..8] == ExtPagePrefix;
    var name := DotSegment(pageName);
    assert pageName[8..8 + |seg|] == seg;
    assert name == seg;
  }

  /** `get`: resolve the page name and put the link in its place, through
      `String.prototype.replace` with the link as the replacement string. */
  function Get(exp: string, locale: string, getURL: string -> string): (r: Result<string>)
    ensures r.Err? <==> !StartsWith(PageName(exp), ExtPagePrefix) && PageName(exp) !in EnPaths
    ensures r.Err? ==> r.error == UnknowPage(PageName(exp))
  {
    var pageName := PageName(exp);
    match PageLink(pageName, locale, getURL)
    case Ok(link) => Ok(Replace(exp, pageName, link))
    case Err(e) => Err(e)
  }

  /** `get` as evidently intended: the page-name prefix of the expression is
      replaced by the link verbatim, so the link is followed by the
      expression's `?`/`#` suffix. */
  function GetLiteral(exp: string, locale: string, getURL: string -> string): (r: Result<string>)
    ensures r.Err? <==> Get(exp, locale, getURL).Err?
    ensures r.Ok? ==> var link := PageLink(PageName(exp), locale, getURL);
      link.Ok? && StartsWith(r.value, link.value) && r.value[|link.value|..] == exp[|PageName(exp)|..]
  {
    var pageName := PageName(exp);
    match PageLink(pageName, locale, getURL)
    case Ok(link) =>
      var s := link + exp[|pageName|..];
      assert s[|link|..] == exp[|pageName|..];
      Ok(s)
    case Err(e) => Err(e)
  }

  /** When the link holds no `$`, `get` is prefix substitution: the link is
      followed by the expression's suffix after the page name. */
  lemma GetKeepsSuffix(exp: string, locale: string, getURL: string -> string)
    requires PageLink(PageName(exp), locale, getURL).Ok? ==> '$' !in PageLink(PageName(exp), locale, getURL).value
    ensures Get(exp, locale, getURL) == GetLiteral(exp, locale, getURL)
  {
    var pageName := PageName(exp);
    var link := PageLink(pageName, locale, getURL);
    if link.Ok? {
      ReplacePrefix(exp, pageName, link.value);
    }
  }

  /** Remote links never contain `$`, so for a remote page `get` always gives
      the link followed by the expression's suffix. */
  lemma RemoteGetKeepsSuffix(exp: string, locale: string, getURL: string -> string)
    requires !StartsWith(PageName(exp), ExtPagePrefix)
    ensures Get(exp, locale, getURL) ==
      match GetRemoteLink(PageName(exp), locale)
      case Ok(link) => Ok(link + exp[|PageName(exp)|..])
      case Err(e) => Err(e)
  {
    GetKeepsSuffix(exp, locale, getURL);
  }

  /** `get` of a name that is not under `extPage.` does not depend on
      `getURL`: any two browsers give the same result. */
  lemma RemoteGetIndependent(exp: string, locale: string, getURL1: string -> string, getURL2: string -> string)
    requires !StartsWith(PageName(exp), ExtPagePrefix)
    ensures Get(exp, locale, getURL1) == Get(exp, locale, getURL2)
  {
    RemoteGetKeepsSuffix(exp, locale, getURL1);
    RemoteGetKeepsSuffix(exp, locale, getURL2);
  }

  /** `get` of `extPage.<seg>` followed by a query or a fragment: the
      packaged page's URL followed by that suffix, when the URL has no `$`. */
  lemma GetExtensionPage(seg: string, suffix: string, locale: string, getURL: string -> string)
    requires '.' !in seg && '?' !in seg && '#' !in seg
    requires suffix == [] || suffix[0] == '?' || suffix[0] == '#'
    requires '$' !in getURL("/pages/" + seg + ".html")
    ensures Get(ExtPagePrefix + seg + suffix, locale, getURL) == Ok(getURL("/pages/" + seg + ".html") + suffix)
  {
    var exp := ExtPagePrefix + seg + suffix;
    var k := |ExtPagePrefix + seg|;
    forall i | 0 <= i < k ensures exp[i] != '?' && exp[i] != '#' {
      if i >= 8 {
        assert exp[i] == seg[i - 8];
      }
    }
    PageNameUnique(exp, k);
    assert exp[..k] == ExtPagePrefix + seg + "";
    ExtensionRouting(exp[..k], seg, "", locale, getURL);
    GetKeepsSuffix(exp, locale, getURL);
    assert exp[k..] == suffix;
  }

  /** The example of the doc comment of `get`: `extPage.setting#hello` is the
      packaged settings page with the fragment `#hello`. */
  lemma GetExtensionExample(locale: string, getURL: string -> string)
    requires '$' !in getURL("/pages/" + "setting" + ".html")
    ensures Get("extPage." + "setting" + "#hello", locale, getURL)
         == Ok(getURL("/pages/" + "setting" + ".html") + "#hello")
  {
    GetExtensionPage("setting", "#hello", locale, getURL);
  }

  /** A remote page with a query and a fragment: `faq?x=1#anchor` under
      `zh-CN` keeps both. */
  lemma GetRemoteExample(getURL: string -> string)
    ensures Get("faq?x=1#anchor", "zh-CN", getURL) == Ok(WebsiteRoot + "/faq-zh-CN.html" + "?x=1#anchor")
  {
    var exp := "faq?x=1#anchor";
    PageNameUnique(exp, 3);
    assert exp[..3] == "faq" && exp[3..] == "?x=1#anchor";
    assert PageName(exp) == "faq";
    assert !StartsWith("faq", ExtPagePrefix);
    FaqInChinese();
    RemoteGetKeepsSuffix(exp, "zh-CN", getURL);
    assert Get(exp, "zh-CN", getURL) == Ok((WebsiteRoot + "/faq-zh-CN.html") + "?x=1#anchor");
  }

  lemma FaqInChinese()
    ensures GetRemoteLink("faq", "zh-CN") == Ok(WebsiteRoot + "/faq-zh-CN.html")
  {
    RemoteLocales();
    assert LocalePaths("zh-CN") == ZhCNPaths;
    assert ZhCNPaths["faq"] == "/faq-zh-CN.html";
    assert !StartsWith("faq", ProjectPrefix);
  }

  /** A `getURL` of a Firefox extension with the id `id`. */
  function MozGetURL(path: string): (url: string)
  {
    "moz-extension://id" + path
  }

  /** A `$&` in the link is expanded by `replace` into the page name: for
      `extPage.a$&` the packaged page `a$&` has the URL
      `moz-extension://id/pages/a$&.html`, but `get` returns
      `moz-extension://id/pages/aextPage.a$&.html`. */
  lemma GetExpandsMatchPattern()
    ensures Get("extPage.a$&", "en", MozGetURL) == Ok(("moz-extension://id" + "/pages/a") + "extPage.a$&" + ".html")
    ensures GetLiteral("extPage.a$&", "en", MozGetURL) == Ok(("moz-extension://id" + "/pages/a") + "$&" + ".html")
    ensures Get("extPage.a$&", "en", MozGetURL) != GetLiteral("extPage.a$&", "en", MozGetURL)
  {
    var exp := "extPage.a$&";
    var link := ("moz-extension://id" + "/pages/a") + "$&" + ".html";
    MatchPatternName();
    MatchPatternLink();
    MatchPatternReplace();
    GetOfWholePageName(exp, "en", MozGetURL, link);
    MatchPatternDiffers();
  }

  /** For an expression that is its own page name, `get` replaces all of it. */
  lemma GetOfWholePageName(exp: string, locale: string, getURL: string -> string, link: string)
    requires PageName(exp) == exp && PageLink(exp, locale, getURL) == Ok(link)
    ensures Get(exp, locale, getURL) == Ok(Replace(exp, exp, link))
    ensures GetLiteral(exp, locale, getURL) == Ok(link)
  {
    assert exp[|exp|..] == [];
    assert link + [] == link;
  }

  lemma MatchPatternName()
    ensures PageName("extPage.a$&") == "extPage.a$&"
  {
    var exp := "extPage.a$&";
    PageNameUnique(exp, |exp|);
    assert exp[..|exp|] == exp;
  }

  lemma MatchPatternLink()
    ensures PageLink("extPage.a$&", "en", MozGetURL) == Ok(("moz-extension://id" + "/pages/a") + "$&" + ".html")
  {
    var exp := "extPage.a$&";
    assert exp == ExtPagePrefix + "a$&" + "";
    ExtensionRouting(exp, "a$&", "", "en", MozGetURL);
    MatchPatternURL();
  }

  /** The URL of the packaged page `a$&`, split around its `$&`. */
  lemma MatchPatternURL()
    ensures MozGetURL("/pages/" + "a$&" + ".html") == ("moz-extension://id" + "/pages/a") + "$&" + ".html"
  {
    var root, path := "moz-extension://id", "/pages/" + "a$&" + ".html";
    assert path == "/pages/a" + "$&" + ".html";
    var x, y, z := "/pages/a", "$&", ".html";
    assert root + (x + y + z) == (root + x) + y + z;
  }

  /** `replace` puts the expression itself where the link has `$&`. */
  lemma MatchPatternReplace()
    ensures Replace("extPage.a$&", "extPage.a$&", ("moz-extension://id" + "/pages/a") + "$&" + ".html")
         == ("moz-extension://id" + "/pages/a") + "extPage.a$&" + ".html"
  {
    var exp := "extPage.a$&";
    var lit := "moz-extension://id" + "/pages/a";
    assert '$' !in lit;
    assert OccursAt(exp, exp, 0);
    SubstituteMatch(exp, exp, 0, lit, ".html");
  }

  lemma MatchPatternDiffers()
    ensures ("moz-extension://id" + "/pages/a") + "extPage.a$&" + ".html"
         != ("moz-extension://id" + "/pages/a") + "$&" + ".html"
  {
    var lit := "moz-extension://id" + "/pages/a";
    var wrong := lit + "extPage.a$&" + ".html";
    var right := lit + "$&" + ".html";
    assert wrong[|lit| + 1] != right[|lit| + 1];
  }

  /** The extension id: the part of the extension root after the first `//`
      up to the next `//`, with its first `/` removed
      (`extensionRoot.split('//')[1].replace('/', '')`). A root without `//`
      raises an error. */
  function ExtensionId(extensionRoot: string): (r: Result<string>)
    ensures r.Err? <==> !Contains(extensionRoot, "//")
    ensures r.Err? ==> r.error == NoAuthority(extensionRoot)
  {
    var parts := Split(extensionRoot, "//");
    assert |parts| >= 2 <==> IndexOf(extensionRoot, "//").Some?;
    if |parts| >= 2 then Ok(Replace(parts[1], "/", "")) else Err(NoAuthority(extensionRoot))
  }

  /** An extension root `<scheme>//<id>/` has the id `<id>`. */
  lemma ExtensionIdOfRoot(scheme: string, id: string)
    requires '/' !in scheme && '/' !in id
    ensures ExtensionId(scheme + "//" + id + "/") == Ok(id)
  {
    RootSplit(scheme, id);
    TrailingSlashRemoved(id);
  }

  /** `<scheme>//<id>/` splits on `//` into the scheme and `<id>/`, when
      neither the scheme nor the id has a `/`. */
  lemma RootSplit(scheme: string, id: string)
    requires '/' !in scheme && '/' !in id
    ensures Split(scheme + "//" + id + "/", "//") == [scheme, id + "/"]
  {
    var root, after := scheme + "//" + id + "/", id + "/";
    assert root == scheme + "//" + after;
    SchemeEndsAtDoubleSlash(scheme, after);
    SplitStep(root, "//", |scheme|);
    assert root[..|scheme|] == scheme && root[|scheme| + 2..] == after;
    LoneTrailingSlash(id);
  }

  /** `<id>/` holds no `//` when `id` has no `/`, so it does not split. */
  lemma LoneTrailingSlash(id: string)
    requires '/' !in id
    ensures Split(id + "/", "//") == [id + "/"]
  {
    var after := id + "/";
    forall j | 0 <= j < |id| ensures !OccursAt(after, "//", j) {
      assert after[j] == id[j];
    }
    assert IndexOf(after, "//").None?;
  }

  /** The first `//` of `<scheme>//<after>` follows the scheme, when the
      scheme has no `/`. */
  lemma SchemeEndsAtDoubleSlash(scheme: string, after: string)
    requires '/' !in scheme
    ensures IndexOf(scheme + "//" + after, "//") == Some(|scheme|)
  {
    var root := scheme + "//" + after;
    assert root[|scheme|..|scheme| + 2] == "//";
    assert OccursAt(root, "//", |scheme|);
    forall j | 0 <= j < |scheme| ensures !OccursAt(root, "//", j) {
      assert root[j] == scheme[j];
    }
  }

  /** Removing the first `/` from `<id>/` leaves `<id>`, when `id` has no `/`. */
  lemma TrailingSlashRemoved(id: string)
    requires '/' !in id
    ensures Replace(id + "/", "/", "") == id
  {
    var after := id + "/";
    forall j | 0 <= j < |id| ensures !OccursAt(after, "/", j) {
      OccursAtChar(after, '/', j);
      assert after[j] == id[j];
    }
    OccursAtChar(after, '/', |id|);
    assert IndexOf(after, "/") == Some(|id|);
    assert after[..|id|] == id && after[|id| + 1..] == [];
    assert Substitute("/", after, |id|, "") == "";
  }

  /** The literal case: `chrome-extension://abc/` has the id `abc`. */
  lemma ExtensionIdExample()
    ensures ExtensionId("chrome-extension://abc/") == Ok("abc")
  {
    ExtensionIdOfRoot("chrome-extension:", "abc");
    assert "chrome-extension:" + "//" + "abc" + "/" == "chrome-extension://abc/";
  }

  /** The extension root, `getURL('/')`, computed once when the module loads. */
  function ExtensionRoot(getURL: string -> string): (root: string)
  {
    getURL("/")
  }

  /** With a `getURL` that gives `<scheme>//<id>/` for `/`, as the
      browsers' extension APIs do, the extension id is `<id>`. */
  lemma ExtensionIdOfGetURL(getURL: string -> string, scheme: string, id: string)
    requires '/' !in scheme && '/' !in id
    requires getURL("/") == scheme + "//" + id + "/"
    ensures ExtensionId(ExtensionRoot(getURL)) == Ok(id)
  {
    ExtensionIdOfRoot(scheme, id);
  }

  /** `isChrome`: the extension root begins with `chrome-extension`. */
  predicate IsChrome(extensionRoot: string)
  {
    StartsWith(extensionRoot, "chrome-extension")
  }

  /** `isFirefox`: the extension root begins with `moz-extension`. */
  predicate IsFirefox(extensionRoot: string)
  {
    StartsWith(extensionRoot, "moz-extension")
  }

  /** No extension root is both a Chrome and a Firefox one. */
  lemma BrowsersExclusive(extensionRoot: string)
    ensures !(IsChrome(extensionRoot) && IsFirefox(extensionRoot))
  {
    if IsChrome(extensionRoot) {
      assert extensionRoot[0] == 'c';
    }
  }

  /** A Chrome root is told as Chrome and a Firefox root as Firefox. */
  lemma BrowserOfRoot(id: string)
    ensures IsChrome("chrome-extension://" + id + "/") && !IsFirefox("chrome-extension://" + id + "/")
    ensures IsFirefox("moz-extension://" + id + "/") && !IsChrome("moz-extension://" + id + "/")
  {
    var chrome, moz := "chrome-extension://" + id + "/", "moz-extension://" + id + "/";
    assert chrome[..16] == "chrome-extension";
    assert moz[..13] == "moz-extension";
    BrowsersExclusive(chrome);
    BrowsersExclusive(moz);
  }
}
