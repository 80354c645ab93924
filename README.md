# MaoXian Web Clipper page-link resolver, in Dafny

This project models `MxWcLink`, the page-link resolver of the MaoXian Web Clipper browser extension (`src/js/lib/mx-wc-link.js`), and proves properties of it.

The resolver turns a page expression into a URL. Examples are `extPage.setting#hello` and `faq?x=1#anchor`.

- The page name is the text before the first `?` or `#`.
- A name under `extPage.` is a page packaged with the extension. Its URL is the browser's `getURL` applied to `/pages/<name>.html`.
- Any other name is looked up in the remote-page table for the browser's locale, with `en` as the fallback. The path found is put after the project root for `project.` names and after the website root for all other names.
- A name missing from the table raises `UnknowPage`.
- In the expression, the page name is then replaced by the link, so any `?…`/`#…` suffix stays.

Two more helpers come from the extension root URL. One derives the extension id. The other tells Chrome from Firefox.

The project has two files:

- `js_string.dfy` (module `JsString`) models the JavaScript string built-ins the resolver uses:
  - `indexOf` (`IndexOf`) and `startsWith` (`StartsWith`);
  - `split` with a string separator (`Split`) and with a one-character class such as `/[?#]/` (`SplitOnAny`);
  - `replace` with a string pattern (`Replace`), including the `$&`, `$$`, `` $` `` and `$'` patterns of the replacement string (`Substitute`, after ECMAScript's GetSubstitution).
- `mx_wc_link.dfy` (module `MxWcLink`) models:
  - the two locale tables (`EnPaths`, `ZhCNPaths`, `RemotePaths`) and the two roots;
  - `get` (`Get`), `getRemoteLink` (`GetRemoteLink`), `getExtensionPageLink` (`GetExtensionPageLink`) and `getExtensionPagePath` (`GetExtensionPagePath`);
  - the routing step of `get` (`PageLink`), split out so that `Get` and its corrected form `GetLiteral` share it;
  - `extensionRoot` (`ExtensionRoot`), `extensionId` (`ExtensionId`), `isChrome` (`IsChrome`) and `isFirefox` (`IsFirefox`).

The browser's `ExtApi.getURL` is a parameter `getURL: string -> string` with no properties of its own. `ExtApi.locale` is a parameter `locale: string`. A thrown error is the `Err` case of a `Result`: `UnknowPage(name)` for line 83, `NoAuthority(root)` for the `TypeError` at line 25 when the root has no `//`.

## Model

| member | source | states |
|---|---|---|
| `MxWcLink.SamePages` | src/js/lib/mx-wc-link.js:28-47 | the `en` and `zh-CN` tables name the same pages |
| `MxWcLink.EnPathsPlain` | src/js/lib/mx-wc-link.js:29-37 | every `en` path is non-empty, so `if (path)` accepts it, and has no `$` |
| `MxWcLink.ZhCNPathsPlain` | src/js/lib/mx-wc-link.js:38-46 | every `zh-CN` path is non-empty and has no `$` |
| `MxWcLink.RootsPlain` | src/js/lib/mx-wc-link.js:26-27 | neither the website root nor the project root contains `$` |
| `MxWcLink.LocalePaths` | src/js/lib/mx-wc-link.js:73-74 | the table chosen for any locale names the pages of the `en` table, with non-empty `$`-free paths |
| `MxWcLink.GetRemoteLink` | src/js/lib/mx-wc-link.js:72-85 | a name resolves exactly when it is in the `en` table, so success is the same under every locale; failure is `UnknowPage(name)`; a resolved link has no `$` |
| `MxWcLink.UnsupportedLocaleIsEnglish` | src/js/lib/mx-wc-link.js:73-74 | a locale without a table gives exactly what `en` gives, for every name |
| `MxWcLink.RemoteLinkRoot` | src/js/lib/mx-wc-link.js:75-81 | a resolved link is project root + path for `project.` names and website root + path otherwise, and it does not begin with the other root |
| `MxWcLink.GetExtensionPagePath` | src/js/lib/mx-wc-link.js:96-98 | the result has the form `/pages/<name>.html`, and the name can be read back from it |
| `MxWcLink.ExtensionPagePathInjective` | src/js/lib/mx-wc-link.js:96-98 | different page names give different paths |
| `MxWcLink.DotSegment` | src/js/lib/mx-wc-link.js:91 | under `extPage.`, `split('.')[1]` is the longest dot-free text after the prefix; with no `.` at all it is `undefined` |
| `MxWcLink.GetExtensionPageLink` | src/js/lib/mx-wc-link.js:90-94 | under `extPage.`, the link is `getURL` of `/pages/<seg>.html`, where `<seg>` is the dot-free text that runs from after the prefix to the next `.` or the end; a name with no `.` at all gives `getURL("/pages/undefined.html")` |
| `MxWcLink.SecondPieceAfterPrefix` | src/js/lib/mx-wc-link.js:91 | under `extPage.`, the split has a second piece, which starts at offset 8, holds no `.` and ends at a `.` or at the end |
| `MxWcLink.PageName` | src/js/lib/mx-wc-link.js:57 | the page name is a prefix of the expression with no `?` or `#`, and it ends at a `?`, a `#` or the end of the expression |
| `MxWcLink.PageNameUnique` | src/js/lib/mx-wc-link.js:57 | the page name is the only such prefix, so an expression without `?` and `#` is its own page name |
| `MxWcLink.ExtensionRouting` | src/js/lib/mx-wc-link.js:59-63 | `extPage.<seg>` or `extPage.<seg>.<more>` resolves to `getURL("/pages/<seg>.html")` under every locale |
| `MxWcLink.PageLink` | src/js/lib/mx-wc-link.js:58-63 | the routing step of `get` fails exactly for a name outside `extPage.` that is missing from the `en` table, and the failure is `UnknowPage` of that name |
| `MxWcLink.RemoteGetIndependent` | src/js/lib/mx-wc-link.js:59-64 | `get` of a name outside `extPage.` gives the same result under any two `getURL`s |
| `MxWcLink.Get` | src/js/lib/mx-wc-link.js:56-65 | `get` fails exactly for a non-`extPage.` name missing from the tables, and the failure is `UnknowPage` of that page name |
| `MxWcLink.GetKeepsSuffix` | src/js/lib/mx-wc-link.js:64 | when the link has no `$`, `get` is the link followed by the expression's text after the page name |
| `MxWcLink.RemoteGetKeepsSuffix` | src/js/lib/mx-wc-link.js:62-64 | for a remote page, `get` is always the remote link followed by the `?`/`#` suffix |
| `MxWcLink.GetExtensionPage` | src/js/lib/mx-wc-link.js:56-64 | `extPage.<seg>` followed by nothing or a `?`/`#` suffix gives `getURL("/pages/<seg>.html")` followed by the suffix, whenever that URL has no `$` |
| `MxWcLink.GetExtensionExample` | src/js/lib/mx-wc-link.js:53-54 | `extPage.setting#hello` gives `getURL("/pages/setting.html")` followed by `#hello` |
| `MxWcLink.GetRemoteExample` | src/js/lib/mx-wc-link.js:56-65 | `faq?x=1#anchor` under `zh-CN` gives the website root + `/faq-zh-CN.html?x=1#anchor` |
| `MxWcLink.GetExpandsMatchPattern` | src/js/lib/mx-wc-link.js:64 | for `extPage.a$&`, `replace` expands the link's `$&` into the page name, so `get` differs from the page's own URL |
| `MxWcLink.GetLiteral` | src/js/lib/mx-wc-link.js:64 | the corrected `get`: it fails exactly when `get` does, and it begins with the link and ends with the expression's text after the page name |
| `MxWcLink.ExtensionId` | src/js/lib/mx-wc-link.js:25 | deriving the id fails exactly when the extension root has no `//` |
| `MxWcLink.ExtensionIdOfRoot` | src/js/lib/mx-wc-link.js:25 | a root `<scheme>//<id>/`, with no `/` in the scheme or the id, has the id `<id>` |
| `MxWcLink.ExtensionIdExample` | src/js/lib/mx-wc-link.js:25 | `chrome-extension://abc/` has the id `abc` |
| `MxWcLink.ExtensionIdOfGetURL` | src/js/lib/mx-wc-link.js:24-25 | when `getURL('/')` is `<scheme>//<id>/`, the extension root computed from it yields the id `<id>` |
| `MxWcLink.BrowsersExclusive` | src/js/lib/mx-wc-link.js:100-106 | no extension root is both a Chrome root and a Firefox root |
| `MxWcLink.BrowserOfRoot` | src/js/lib/mx-wc-link.js:100-106 | a `chrome-extension://<id>/` root is Chrome and not Firefox; a `moz-extension://<id>/` root is Firefox and not Chrome |
| `JsString.SplitOnAnyHead` | src/js/lib/mx-wc-link.js:57 | the first piece of a split on a character class is the longest prefix without those characters |
| `JsString.SplitCharHead` | src/js/lib/mx-wc-link.js:91 | the first piece of `split(c)` is the longest prefix without `c`; when `c` occurs, the second piece is the first piece of the rest |
| `JsString.SplitJoin` | src/js/lib/mx-wc-link.js:25 | joining the pieces of `split(sep)` with `sep` gives back the string |
| `JsString.SplitPiecesFree` | src/js/lib/mx-wc-link.js:25 | no piece of `split(sep)` contains `sep` |
| `JsString.ReplacePrefix` | src/js/lib/mx-wc-link.js:64 | replacing a prefix by a `$`-free string gives that string followed by the rest |
| `JsString.SubstituteMatch` | src/js/lib/mx-wc-link.js:64 | in a replacement string, `$&` stands for the matched text |

## Findings

| source | as written | input that shows it | evidently intended | confidence | as-written member | corrected member |
|---|---|---|---|---|---|---|
| src/js/lib/mx-wc-link.js:64 | `exp.replace(pageName, pageLink)` passes the link as a replacement string, so `$&`, `$$`, `` $` `` and `$'` in the link are expanded | `extPage.a$&`, where `getURL` puts `moz-extension://id` in front of the path: `get` gives `moz-extension://id/pages/aextPage.a$&.html` | the link verbatim, followed by the suffix: `moz-extension://id/pages/a$&.html` | low, not executed; it depends on `getURL` leaving `$` unescaped, and page names with `$` are unlikely in practice | `MxWcLink.GetExpandsMatchPattern` | `MxWcLink.GetLiteral` |

`MxWcLink.GetKeepsSuffix` proves that `Get` and `GetLiteral` agree whenever the link has no `$`. `MxWcLink.RemoteGetKeepsSuffix` shows that every remote link is such a link.

## Left out

- `listen` (lines 108-132) is not modelled. It is DOM click handling, navigation through `window.location`, tab creation and background messaging.
- The behaviour of `ExtApi.getURL` and `ExtApi.locale` is not modelled. They are browser APIs and appear only as parameters.
- `extensionRoot` and `extensionId` are computed once when the module loads. Here they are functions of `getURL`, and the `TypeError` at load time becomes `Err(NoAuthority(root))`.
- GetRemoteLink: treats a name that is only an inherited `Object.prototype` property as absent. In JavaScript, `remotePaths[locale]` and `dict[pageName]` also find inherited properties such as `constructor` or `toString`, which the model does not represent.
- JavaScript strings are sequences of UTF-16 code units. Here a string is a `seq<char>`, and no encoding is modelled.
- `src/js/lib/translation.js`, `test/helper.js` and `test/test-capturer-css.js` are not part of this model. The first is a wrapper over an i18n library plus DOM traversal, and the second is test plumbing. The third exercises the CSS capturer, whose source is not part of this model.
