# Chayah Kalahari site: build script, page script and contact handler in Dafny

This project models the logic of the Chayah Kalahari Project NPC website in
Dafny. All I/O is removed and the logic is stated as pure functions over
sequences:

- **The build script (`build.js`):**
  - the three minifiers, each a fixed chain of regular-expression rewrites;
  - the image pass, which covers which gallery files are picked up, which
    encoder settings each one gets, and the three counters;
  - the deployment manifest and the sitemap date;
  - the recursive directory size;
  - the fixed step order of `build()`, where the first failure ends the build.
- **The page script (`script.js`):**
  - the e-mail pattern and the contact form's submit handler;
  - the scroll spy and the navbar threshold;
  - the lightbox/full-gallery state machine, including `populateFullGallery`.
- **The contact handler (`send-email.php`):**
  - the ordered checks that decide the single response;
  - `trim`, `empty`, `htmlspecialchars` with `ENT_QUOTES`, and `strlen`;
  - the byte limits, measured on the escaped text;
  - the mail, log and auto-reply branching, and the WhatsApp link.

The modules are:

- `Opt`: the `Option` type.
- `Text`:
  - the exact JavaScript `\s` class;
  - the shape predicates (only plain spaces, no double whitespace, no
    whitespace before or after a character, no gap between `>` and `<`);
  - the literal search `IndexOf` and the visible characters of a string.
- `WsRewrite`: the whitespace regexes. `\s+` to a space is `CollapseWs`;
  `\s*p\s*` to `p` is `Squeeze`; the three tag passes are `>\s+<`, `\s+>` and
  `<\s+`. Each pass scans left to right, takes non-overlapping matches and
  never rescans replaced text.
- `LiteralRewrite`:
  - the lazy comment patterns `<!--…-->` and `/*…*/`;
  - `//.*$` with the `m` flag;
  - `replace('lit', …)`, which replaces the first occurrence only;
  - `replace(/lit/g, …)`.
- `Minify`: the three minifiers composed in source order, with their shape,
  idempotence and fixed-point theorems.
- `MinifyExamples`: concrete inputs that show the code's actual behaviour.
- `Images` and `Build`: the image pass and the build driver.
- `Gallery` and `Overlays`: the full-gallery list and the overlay state machine.
- `Client`: the other page-script decisions.
- `Php` and `Contact`: the PHP built-ins and the handler.

Where the code and its documented description disagree, the model follows the
code:

- **The HTML comment example.** The page `<!-- note -->\n<div>  hi  </div>`
  is described as minifying to `<div>hi</div>`. The code gives
  ` <div> hi </div>`: whitespace between a tag and text is collapsed, not
  removed (`MinifyExamples.HtmlCommentExample`).
- **Idempotence.** Minifying twice is described as giving the same output as
  minifying once. It does not for any of the three minifiers:
  - HTML: only the first `styles.css` is rewritten, so a second pass rewrites
    the next one (`MinifyExamples.HtmlNotIdempotent`);
  - CSS: `;;}` loses one semicolon per pass (`MinifyExamples.CssNotIdempotent`);
  - JavaScript: squeezing `/ /` creates a `//` line comment that the next pass
    removes (`MinifyExamples.JsNotIdempotent`).

  The whitespace stages on their own are idempotent
  (`Minify.HtmlWhitespaceIdempotent`, `Minify.CssBodyIdempotent`,
  `Minify.JsBodyIdempotent`).

The model keeps the naive behaviour. The `-` rule removes the space in front
of `-50px` in the observer's margin string `'0px 0px -50px 0px'`, so no
minified script contains that string (`MinifyExamples.RootMarginNeverSurvives`).
A `//` inside a string literal is taken for a comment
(`MinifyExamples.JsCutsStringAtDoubleSlash`).

## Model

| member | source | states |
|---|---|---|
| WsRewrite.CollapseWs | build.js:30 | `\s+` to one space: the result is no longer than the input, every whitespace character in it is a plain space, no two whitespace characters are adjacent, and it starts with whitespace iff the input does |
| WsRewrite.CollapseWsKeepsVisible | build.js:56 | collapsing removes or adds no visible character: the non-whitespace content is unchanged |
| WsRewrite.CollapseWsFixesCollapsed | build.js:84 | a string whose whitespace is already single plain spaces is left unchanged |
| WsRewrite.Squeeze | build.js:57 | `\s*p\s*` to `p`: never longer, keeps plain-space-only text so, and starts with `p` exactly when a match is found at the front |
| WsRewrite.SqueezeClearsAround | build.js:57-61 | after the squeeze for `p`, no whitespace stands immediately before or after any `p` |
| WsRewrite.SqueezeKeepsVisible | build.js:85-93 | the squeeze removes whitespace only: the visible content is unchanged |
| WsRewrite.SqueezeKeepsNoWsAround | build.js:85-93 | a later squeeze never puts whitespace back next to a character an earlier squeeze cleared |
| WsRewrite.SqueezeFixesClear | build.js:58 | text with no whitespace beside any `p` is left unchanged |
| WsRewrite.DropWsBetween | build.js:31 | `>\s+<` to `><`: never longer, and keeps plain-space-only text so |
| WsRewrite.DropWsBetweenMakesNoGap | build.js:31 | after the pass, no single whitespace character stands between a `>` and a `<` |
| WsRewrite.DropWsBetweenKeepsVisible | build.js:31 | the pass removes whitespace only |
| WsRewrite.DropWsBefore | build.js:32 | `\s+>` to `>`: never longer, and keeps plain-space-only text so |
| WsRewrite.DropWsBeforeClears | build.js:32 | after the pass, no whitespace stands immediately before a `>` |
| WsRewrite.DropWsBeforeKeepsVisible | build.js:32 | the pass removes whitespace only |
| WsRewrite.DropWsAfter | build.js:33 | `<\s+` to `<`: never longer, and keeps plain-space-only text so |
| WsRewrite.DropWsAfterClears | build.js:33 | after the pass, no whitespace stands immediately after a `<` |
| WsRewrite.DropWsAfterKeepsVisible | build.js:33 | the pass removes whitespace only |
| WsRewrite.DropWsAfterKeepsNoWsBefore | build.js:32-33 | the `<\s+` pass does not undo what the `\s+>` pass achieved |
| LiteralRewrite.StripDelimited | build.js:27 | the lazy comment pattern never lengthens the text |
| LiteralRewrite.StripNearest | build.js:53 | an opener is removed through the nearest closer after it, and the scan resumes right after that closer |
| LiteralRewrite.StripWithoutOpener | build.js:81 | text without an opener is left unchanged |
| LiteralRewrite.StripWithoutCloser | build.js:27 | text without a closer is left unchanged: an unterminated comment is kept |
| LiteralRewrite.StripLineComments | build.js:80 | `//.*$` with the `m` flag never lengthens the text, and what is kept starts with the original first character or a line terminator |
| LiteralRewrite.StripLineCommentsKeepsLines | build.js:80 | removing line comments keeps every line terminator, in order, so no two lines are joined |
| LiteralRewrite.StripLineCommentsLeavesNoOpener | build.js:80 | no `//` survives the line-comment pass |
| LiteralRewrite.LineCommentCutsLine | build.js:80 | `p + "//" + c` becomes `p` when `p` has no slash and `c` has no line terminator, whatever `c` holds (string literals included) |
| LiteralRewrite.ReplaceFirst | build.js:40-41 | `replace('lit', rep)`: with no occurrence the text is unchanged, otherwise exactly the first occurrence is spliced out and `rep` put in its place |
| LiteralRewrite.ReplaceFirstWithout | build.js:40-41 | text that lacks the literal is left unchanged |
| LiteralRewrite.ReplaceAll | build.js:64 | `replace(/;}/g, '}')`: not longer when the replacement is shorter, unchanged when there is no occurrence, keeps plain-space-only text so, and starts with the replacement iff the pattern opens the text |
| Text.RemoveAllConcat | send-email.php:213 | `str_replace` of one character works piece by piece: removing from `a + b` is removing from `a`, then from `b`, so the remaining characters keep their order |
| Text.RemoveAllCounts | build.js:36-37 | only the removed character goes: every other character occurs as often as before |
| Minify.DropLineBreaks | build.js:36-37 | the `\n` and `\r` passes leave no line break and never lengthen the text |
| Minify.DropLineBreaksAfterCollapse | build.js:30-37 | once whitespace is collapsed the line-break passes change nothing |
| Minify.HtmlWhitespace | build.js:30-37 | the HTML whitespace stage never lengthens the page and leaves no line break |
| Minify.CssBody | build.js:56-61 | the CSS whitespace stage never lengthens the text and leaves only plain spaces |
| Minify.JsBody | build.js:84-93 | the JavaScript whitespace stage never lengthens the text and leaves only plain spaces |
| Minify.SqueezeAllClears | build.js:57-61 | after the whole chain of squeezes, no squeezed character has whitespace beside it |
| Minify.SqueezeAllKeepsVisible | build.js:85-93 | the chain of squeezes removes whitespace only |
| Minify.MinifyHtml | build.js:22-45 | the HTML output is at most 8 characters longer than the input, the 4 + 4 the two file-name rewrites add |
| Minify.HtmlWhitespaceShapes | build.js:30-37 | the whitespace stage leaves single plain spaces only, none after `<`, none before `>`, none between `>` and `<`, and keeps the visible content |
| Minify.MinifyHtmlShape | build.js:27-41 | every HTML output has those shapes and no line break, the rewrites included |
| Minify.RewriteInsertsMinified | build.js:40-41 | when the page names `styles.css` (or `script.js`), the output names `styles.min.css` (or `script.min.js`) |
| Minify.MinifyHtmlWithoutReferences | build.js:40-41 | a page naming neither file is not touched by the two rewrites |
| Minify.HtmlKeepsSpacesBesideText | build.js:30-33 | whitespace runs around text between tags each leave exactly one space |
| Minify.HtmlWhitespaceFixesShaped | build.js:30-37 | a page already in shape passes the whitespace stage unchanged |
| Minify.HtmlWhitespaceIdempotent | build.js:30-37 | the whitespace stage applied twice equals applied once |
| Minify.MinifyHtmlFixes | build.js:22-45 | the fixed points of the HTML minifier: a page in shape with no comment opener and no file reference is unchanged |
| Minify.MinifyCss | build.js:48-72 | the CSS output is never longer than the input |
| Minify.MinifyCssShape | build.js:53-68 | every CSS output has only plain spaces, no line break and no whitespace beside `{ } : ; ,`, and the whitespace stage keeps the visible content of the comment-stripped stylesheet |
| Minify.CssBodyIdempotent | build.js:56-61 | the CSS whitespace stage applied twice equals applied once |
| Minify.MinifyJs | build.js:75-101 | the JavaScript output is never longer than the input |
| Minify.MinifyJsShape | build.js:80-97 | every JavaScript output has only plain spaces, no line break, no whitespace beside `{ } ; , = + - * /`, and the visible content left after comment removal |
| Minify.JsBodyIdempotent | build.js:84-93 | the JavaScript whitespace stage applied twice equals applied once |
| MinifyExamples.HtmlCommentExample | build.js:27-41 | `<!-- note -->\n<div>  hi  </div>` minifies to ` <div> hi </div>` |
| MinifyExamples.HtmlRewritesFirstReferenceOnly | build.js:40 | in `styles.css styles.css` only the first name is rewritten |
| MinifyExamples.HtmlNotIdempotent | build.js:22-45 | the HTML minifier applied to its own output changes it |
| MinifyExamples.CssNotIdempotent | build.js:64 | `a;;}` gives `a;}`, and minifying that again changes it: the CSS minifier is not idempotent |
| MinifyExamples.JsNotIdempotent | build.js:80-93 | `/ /` gives `//`, and minifying that again changes it: the JavaScript minifier is not idempotent |
| MinifyExamples.JsCutsStringAtDoubleSlash | build.js:80 | `a='http://x';` minifies to `a='http:` |
| MinifyExamples.RootMarginNeverSurvives | build.js:91 | no minified script, whatever the input, contains `'0px 0px -50px 0px'` |
| Images.Lower | build.js:167 | ASCII lower-casing keeps the length and folds each character on its own |
| Images.Extname | build.js:167 | `path.extname`: an ending of the name that is empty or starts with its only dot, and shorter than the name |
| Images.IsGalleryImage | build.js:155 | a name the gallery filter accepts has at least four characters, the shortest extension |
| Images.GalleryEncoding | build.js:167-187 | a file is encoded only when its name has an extension, and only with the photo or the PNG settings |
| Images.Selected | build.js:155 | the gallery filter keeps an entry iff its name matches, and never returns more entries than the directory holds |
| Images.SelectedConcat | build.js:155 | the filter works piece by piece, so the selected files keep their directory order |
| Images.SelectedSingle | build.js:155 | a single entry is kept iff its name matches |
| Images.GalleryImageByExtname | build.js:155-167 | a name is picked up iff its lower-cased `extname` is one of `.jpg .jpeg .png .gif`, or the whole name is one of them |
| Images.GalleryChoice | build.js:165-187 | for a selected name: JPEG q80 progressive mozjpeg iff it ends in `.jpg`/`.jpeg`, PNG q80 level 9 iff `.png`, a copy iff `.gif` or the name is only the extension |
| Images.UpperJpgIsPhoto | build.js:155-176 | a non-empty stem plus `.JPG` is selected and encoded as a photo |
| Images.LogoSettings | build.js:126-130 | with the codec loaded, the logo is encoded, or falls back to a copy, with JPEG q85 progressive |
| Images.Treat | build.js:126-148 | every path keeps the file's name and original size, and both copy paths report the original size as written |
| Images.Plan | build.js:121-208 | one output per processed file: the logo (when it exists) comes first and is the only top-level output, then one per selected gallery file |
| Images.Tally | build.js:117-207 | the processed count equals the number of outputs: each one increments it exactly once |
| Images.ProcessGallery | build.js:159-209 | the gallery loop appends one output per selected file and adds one to the count and the file's size to the original total per file |
| Images.CompressImages | build.js:104-210 | the outputs follow the plan (the logo, then the selected gallery files) and the statistics are their tally; the count is one for the logo when it exists plus the number selected, and the original total is the sum of their sizes |
| Images.PlanCount | build.js:121-208 | every processed image increments the count exactly once, on every path |
| Images.MissingGalleryOnlyLogo | build.js:152-153 | without a gallery directory only the logo is processed |
| Images.NothingEncoded | build.js:198-208 | when no encoding succeeds every output is a copy of its original, and without the codec every output is a plain copy |
| Images.NoCodecCopiesEverything | build.js:204-208 | without the codec every file is copied, and the compressed total equals the original total |
| Images.FailingCodecCopiesEverything | build.js:198-203 | with a codec whose every encoding throws, nothing is encoded and the totals agree |
| Build.RunSteps | build.js:337-375 | the completed steps are a prefix of the order, none of them throws; without a failure every step completes, and a failure is the first throwing step, right after the completed prefix |
| Build.Build | build.js:337-376 | the steps that ran are the first steps of the fixed order, and the step that threw is one of the eight |
| Build.ExitCode | build.js:372-375 | the exit status is 0 or 1, and 1 exactly when a step threw |
| Build.StepCompletes | build.js:338-347 | the `i`-th step completes iff neither it nor any step before it throws |
| Build.ExitCodeOfBuild | build.js:372-375 | the exit status is 1 iff some step throws, and 0 iff all eight steps complete |
| Build.ImageFailureStopsEverything | build.js:339 | a failing image pass leaves every later step unrun |
| Build.MakeManifest | build.js:228-251 | `imagesOptimized` records whether the codec was loaded, the three minification flags are always set, the file table names `styles.min.css` and `script.min.js`, and the build date is the clock reading |
| Build.ManifestFlags | build.js:231-247 | for every codec, `imagesOptimized` equals "codec loaded", the other three flags are set, and the listed files are the minified names; with a loaded codec whose every encoding throws, the manifest still says `imagesOptimized` while no image was encoded |
| Build.SitemapDate | build.js:326 | the sitemap date is the longest prefix of the timestamp without `T` |
| Build.SitemapDateOfTimestamp | build.js:326 | for `date + "T" + time` with a `T`-free date, the sitemap gets the date |
| Build.DirectorySize | build.js:379-398 | the recursive size of an existing directory equals the sum over the flat list of every file below it |
| Build.ItemsSizeIsFileSum | build.js:379-398 | `getDirectorySize` equals the sum of the sizes of all files below the directory |
| Build.ImageDirectoryMatchesStats | build.js:362-367 | the image size in the report is the compressed total the image pass counted, when `dist/img` was empty before |
| Gallery.AllGalleryImages | script.js:288-312 | the list has 23 entries, each `img/gallery/` plus its stem plus `.JPG` with its description |
| Gallery.GalleryPhotosAreEncoded | script.js:288-312 | every picture the modal requests is a gallery file the build selects and encodes as JPEG q80 |
| Overlays.Populate | script.js:315-335 | whatever the grid held, it ends up holding exactly the gallery list, in order |
| Overlays.PopulateIdempotent | script.js:315-335 | populating twice is populating once |
| Overlays.ViewMoreNeverAccumulates | script.js:338-342 | after any number of "view more" clicks the grid is the gallery list once |
| Overlays.GridClickShowsPhoto | script.js:326-331 | after "view more", clicking the `k`-th grid item shows the `k`-th gallery image |
| Overlays.InitialCatalogue | script.js:288-312 | the page's list is the 23 photos under `img/gallery/` |
| Overlays.RunKeepsCatalogue | script.js:288-312 | no sequence of handlers changes the gallery list |
| Overlays.Handle | script.js:49-370 | no handler changes the gallery list, only "view more" rebuilds the grid, only the two open handlers change the picture, and a grid click past the end changes nothing |
| Overlays.Step | script.js:49-77 | as written, opening either overlay (a page item, a grid item or "view more") locks scrolling, a grid item shows its picture in the lightbox, and either close button unlocks scrolling |
| Overlays.ScrollUnlockedUnderModal | script.js:59-62 | as written, "view more", a grid click and the lightbox close button leave the modal showing over a page that scrolls |
| Overlays.StepLocked | script.js:345-348 | with the lock kept while the other overlay shows, every handler preserves "scrolling locked iff an overlay shows" |
| Overlays.LockedRunConsistent | script.js:338-370 | with the lock kept, every sequence of events preserves "scrolling locked iff an overlay shows" |
| Overlays.EscapeCloses | script.js:359-370 | Escape closes whichever overlays show, changes nothing when neither shows, and otherwise unlocks scrolling |
| Overlays.OtherKeysIgnored | script.js:72-77 | any other key changes nothing |
| Overlays.BackdropClick | script.js:64-69 | a click on an overlay closes it exactly when the overlay itself is the target |
| Client.EmailShapeIsRule | script.js:131 | the pattern matches iff there is no whitespace, exactly one `@` that is not first, and a dot after it that is neither the first nor the last character of the domain |
| Client.IsValidEmail | script.js:130-133 | the scan answers true iff the string matches the pattern |
| Client.Submit | script.js:82-128 | a falsy field gives only the fill-in alert, then an invalid address gives only the e-mail alert, with no request; otherwise one POST with the untrimmed fields, one alert chosen by the reply, the button restored and enabled, and the form reset iff the reply reports success |
| Client.SpacesAreNotEmpty | script.js:91 | a name of spaces is not falsy: the handler does not trim |
| Client.LastInView | script.js:249-255 | the chosen section is in view and no later section is; with none chosen, no section is in view |
| Client.ScrollSpy | script.js:244-263 | `current` is the id of the last section in view, or empty, and a link is active iff its href is `#` plus `current` |
| Client.NothingInViewMarksBareHash | script.js:248-262 | with no section in view, `current` is empty and the active href is `#` |
| Client.NavbarThreshold | script.js:32-41 | translucent iff the offset is strictly over 100, opaque otherwise, and monotone in the offset |
| Client.NavbarStyle | script.js:32-41 | the navbar takes one of the two styles, and is blurred exactly when the page is scrolled past 100 pixels |
| Php.Trim | send-email.php:31-33 | `trim` gives a slice with only trim characters cut from both ends, which neither starts nor ends with one |
| Php.TrimIdempotent | send-email.php:31-33 | trimming twice is trimming once |
| Php.TrimEmptyIffAllTrim | send-email.php:31-36 | a value trims to the empty string iff it consists of trim characters only |
| Php.IsEmpty | send-email.php:36-40 | an `empty` string has at most one character, and that character is `0` |
| Php.Escape | send-email.php:50 | the escaped text contains no raw `< > " '`, is never shorter, and equals the input when the input has no special character |
| Php.UnescapeEscape | send-email.php:50-52 | escaping loses nothing: reading the entities back gives the original text |
| Php.StrlenBounds | send-email.php:55 | the byte length is at least the number of characters, with equality iff the text is ASCII |
| Php.Strlen | send-email.php:55-65 | the byte length is between one and four bytes per character |
| Php.EscapedStrlen | send-email.php:55-65 | the escaped byte length is the raw byte length plus 4 per `&`, 5 per quote and 3 per angle bracket |
| Contact.WhatsAppLink | send-email.php:213 | the link holds no `+`, and a number without `+` appears after `https://wa.me/` exactly as written |
| Contact.WhatsAppLinkDropsPlus | send-email.php:213 | a `+` anywhere in the number is dropped and the characters on either side of it are kept, in order |
| Contact.ConfiguredWhatsAppLink | send-email.php:213 | the configured number gives `https://wa.me/27 83 388 0898`, spaces kept |
| Contact.Check | send-email.php:24-65 | a rejection is a 400 or 405 without success; an accepted request was a POST with non-empty trimmed fields and a valid address, and its escaped name and message fit the byte limits |
| Contact.HandleRequest | send-email.php:24-237 | at most two mails and one log line; success exactly with status 200; no mail at all exactly when a check rejects the request |
| Contact.MethodCheckedFirst | send-email.php:24-28 | a request that is not a POST gets 405 "Method not allowed" whatever it carries, with nothing sent or logged |
| Contact.CheckByConditions | send-email.php:24-65 | the checks run in source order (method, empty fields, e-mail, name bytes, message bytes), with the limits stated on the raw text plus the escaping growth |
| Contact.CheckOrder | send-email.php:31-65 | each 400 message is given exactly when every earlier check passed and its own check failed |
| Contact.RejectionSendsNothing | send-email.php:24-65 | a request passes iff every check passes; a rejected one gets 400 or 405 with nothing sent or logged, and an accepted one always mails the recipient |
| Contact.MailOutcome | send-email.php:141-237 | 200 with the thanks iff `mail()` succeeded, else 500; with logging on, one line, to the error log on failure and to the contact log on success; an auto-reply to the sanitised address iff the mail succeeded and auto-replies are on |
| Contact.AcceptedFieldsAreEscaped | send-email.php:49-52 | the accepted name and message contain no raw `< > " '` and unescape to the trimmed input |
| Contact.EscapingExpandsPastLimit | send-email.php:50-59 | a name of 26 to 100 `<` fits the limit as typed but is rejected as too long |
| Contact.ClientAcceptsServerRejects | send-email.php:31-40 | a name of spaces, or `0`, passes the page's check but gets "All fields are required" from the server |

## Left out

- File system, console output, `process.exit` and the clock: the minifiers are string functions, file sizes and listings are inputs, and timestamps are parameters.
- The image codec: it is an oracle that returns the written size or fails. Nothing is claimed about compression making files smaller.
- Floating-point reporting: MB and percent figures, `toFixed`, the `savings > 5` filter, and division by a zero total.
- The `.htaccess`, `robots.txt` and sitemap templates apart from the sitemap date. The HTML bodies of both e-mails are also left out; the model keeps the recipient, subject, `Reply-To` and the WhatsApp link.
- The top-level `dist` creation and the file-size listing of the final report. The image directory size is modelled (`Build.ImageDirectoryMatchesStats`).
- DOM wiring, `fetch`, `alert` and `FormData`: the submit handler takes the fields and the server's reply as inputs. Only the decision logic of the page script is kept.
- The mobile menu, smooth scrolling, the fade-in and counter animations, parallax, preloading and image load/error styling.
- `filter_var`: both e-mail filters are uninterpreted function parameters.
- `mail()`: its result is a parameter. The log timestamp from `date` is a parameter too.
- `header`, `phpversion`, `REMOTE_ADDR` and `json_encode`.
- Array-valued POST fields: every field is a string.
- `htmlspecialchars` on invalid UTF-8: text is a sequence of code points, and `strlen` is the UTF-8 byte length of that sequence.
- `email-config.php`:
  - its values are a constant table loaded once; its self-include at email-config.php:46-48 is not modelled;
  - its `max_name_length` and `max_message_length` are never read, since the handler uses its own constants.
- Images.Lower: `toLowerCase` is modelled on ASCII letters only. This is exact for the regular-expression `i` flag, but weaker than JavaScript for non-ASCII letters in file extensions.
- Client.ScrollSpy: offsets are exact reals, not IEEE doubles.
- Build.ImageDirectoryMatchesStats: it assumes `dist/img` held nothing before the build. Leftover files would add to the reported size.

## Findings

| source | as written | input that shows it | evidently intended | confidence | as-written member | corrected member |
|---|---|---|---|---|---|---|
| script.js:59-62 | every close handler sets `overflow` to `auto`, also while the other overlay is still showing | "view more", then a click on the first grid item, then the lightbox close button | scrolling stays locked while the full-gallery modal is still open | not executed | Overlays.ScrollUnlockedUnderModal | Overlays.LockedRunConsistent |
