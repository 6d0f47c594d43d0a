# Page scripting of the Arte Construir site, modelled in Dafny

`scripts/main.js` drives a small marketing site. It injects shared header,
footer and chat fragments, highlights the navigation link of the current
page, runs a slide-in mobile navigation drawer, opens and closes modal
dialogs (some of them embed a video), and runs a scripted chat widget that
offers WhatsApp deep links. This project models the logic inside that glue
over abstract page state, without simulating the DOM:

- `page_key.dfy` (module `PageKey`): `getCurrentPageKey`, the path resolver.
  Trailing slashes are stripped, the last non-empty segment is looked up in
  a fixed table, and the result falls back to `home`. `String.split`,
  `filter(Boolean)` and `pop` are modelled one by one. The table is a plain
  object literal, so a segment naming an inherited `Object.prototype` member
  (`constructor`, `toString`, ...) yields that member rather than `home`.
  The model keeps this as the `ProtoMember` key.
- `nav_links.dfy` (module `NavLinks`): `getHrefForPage`,
  `configureNavLinks` and `highlightActiveNav`. The two loops run over an
  array of link records and are proved against sequence functions.
- `mobile_nav.dfy` (module `MobileNav`): the `open`/`close` closures of
  `initMobileNavbar` and their listeners. The model is a class holding the
  initialised containers, the `activeMobileNav` session, the body
  `navbar-open` flag and a ghost log of focus moves.
- `modal.dfy` (module `Modals`): `toggleBodyScroll`, `injectVideo`,
  `clearVideo`, `openModal` and `closeModal`. The model is a class holding
  the `.modal` elements in document order, `lastModalTrigger`, the body
  `modal-open` flag and a ghost log of focus moves.
- `router.dfy` (module `Router`): `handleDocumentClick`,
  `handleDocumentKeydown` and `handleDocumentFocus`. Each is a dispatch rule
  over an abstract event, and the first two are also executed on the
  controllers.
- `chatbot.dfy` (module `Chatbot`): the chat widget of `initChatbot`. It
  covers option selection with its single response block, `closeChat`, the
  WhatsApp link with its default number and its fall-back from message to
  label to trimmed text, and the back-to-top visibility.
- `uri_encode.dfy` (module `UriEncode`): `encodeURIComponent`
  (ECMA-262 section 19.2.6.5) over Unicode scalar values, with the matching
  `decodeURIComponent`. The decoder states what the link preserves.
- `common.dfy` (module `Common`): `Option` and JavaScript's `a || b` on
  optional string attributes.

Line 6 of `getCurrentPageKey` (`path === '/'`) cannot be reached. The
stripped path never ends in `/`, as `StripTrailingSlashes` guarantees. The
model keeps the branch as written.

## Model

| member | source | states |
|---|---|---|
| PageKey.StripTrailingSlashes | scripts/main.js:2 | the result is the longest prefix of the path that does not end in '/', and only slashes follow it |
| PageKey.Split | scripts/main.js:10 | splitting always gives at least one piece |
| PageKey.JoinSplit | scripts/main.js:10 | joining the pieces of a split with the separator gives back the string |
| PageKey.SplitPiecesFree | scripts/main.js:10 | no piece of a split contains the separator |
| PageKey.Filter | scripts/main.js:10 | `filter(Boolean)` keeps exactly the non-empty segments: a string is in the result iff it is a non-empty segment, a non-empty last segment is the last element, and an empty last segment is dropped |
| PageKey.FilterAppend | scripts/main.js:10 | filtering a concatenation is the concatenation of the filtered parts, so the kept segments stay in their order |
| PageKey.Pop | scripts/main.js:10 | `pop()` gives the last element exactly when the list is non-empty |
| PageKey.Basename | scripts/main.js:10 | the text after the last '/' is a '/'-free suffix preceded by '/' or the start |
| PageKey.LastPieceIsBasename | scripts/main.js:10 | the last piece of a split on '/' is the text after the last '/' |
| PageKey.Table | scripts/main.js:11-22 | a segment maps to a page only as that page's name or the name with `.html`, `index` and `index.html` standing for home; no inherited member name is an own entry |
| PageKey.KeyOfSegment | scripts/main.js:11-24 | a segment in the table gives that table entry's page; an inherited member name gives that very member; a missing segment or any other one gives home |
| PageKey.CurrentPageKey | scripts/main.js:1-25 | every path resolves to one of the five pages or to an inherited member |
| PageKey.StripIgnoresSlashes | scripts/main.js:2 | extra trailing slashes do not change the stripped path |
| PageKey.TrailingSlashesIgnored | scripts/main.js:2-8 | a path and the same path with any number of extra trailing slashes resolve to the same key |
| PageKey.AllSlashesIsHome | scripts/main.js:2-8 | "", "/", "///" and every other all-slash path resolve to home |
| PageKey.KeyIsLastSegment | scripts/main.js:2-24 | the key is home for an empty stripped path and otherwise depends only on the text after its last '/' |
| PageKey.ResolvesBySegment | scripts/main.js:10-24 | a path ending in a non-empty '/'-free segment resolves by that segment, whatever precedes it |
| PageKey.TableAliases | scripts/main.js:11-22 | `p` and `p.html` both map to `p` for portfolio, partners, videos and faq |
| PageKey.PageSegmentsResolve | scripts/main.js:10-24 | `dir/p` and `dir/p.html` resolve to `p` for every page other than home |
| PageKey.IndexSegmentsResolve | scripts/main.js:10-24 | `dir/index` and `dir/index.html` resolve to home |
| PageKey.UnknownSegmentIsHome | scripts/main.js:24 | a last segment outside the table that is not an inherited name resolves to home |
| PageKey.InheritedSegmentIsNotAPage | scripts/main.js:24 | a last segment naming an inherited member resolves to that member, not to a page |
| NavLinks.HighlightActiveNav | scripts/main.js:27-38 | the new links are the old ones with `is-active` set exactly on those whose page equals the current key |
| NavLinks.HrefForPage | scripts/main.js:51-56 | `name.html` when local and `/name` when deployed, home being `index.html` and `/`; DeployedHrefResolves and LocalHrefResolves show each href leads back to its page |
| NavLinks.IsLocal | scripts/main.js:46-49 | the site counts as local when served from `file:` or from the host `localhost` or `127.0.0.1` |
| NavLinks.ConfigureNavLinks | scripts/main.js:41-67 | every link with a non-empty page gets the href for that page and the local flag; the others are untouched |
| NavLinks.HighlightMarksExactlyCurrent | scripts/main.js:31-37 | a link is active after highlighting iff its page is the current key; its page and href are unchanged |
| NavLinks.HighlightIdempotent | scripts/main.js:27-38 | highlighting twice equals highlighting once |
| NavLinks.HighlightSingleMatch | scripts/main.js:31-38 | when exactly one link carries the current page, exactly that link is active |
| NavLinks.ConfigureIdempotent | scripts/main.js:59-66 | configuring twice equals configuring once |
| NavLinks.ConfigureHighlightCommute | scripts/main.js:414-416 | configuring and highlighting can run in either order with the same result |
| NavLinks.DeployedHrefResolves | scripts/main.js:52-57 | the deployed href of each page (`/` for home, `/p` otherwise) resolves back to that page |
| NavLinks.LocalHrefResolves | scripts/main.js:52-57 | the local href of each page (`index.html` for home, `p.html` otherwise), opened from any directory, resolves back to that page |
| NavLinks.FollowedLinkBecomesActive | scripts/main.js:27-66 | following a configured link loads a page on which that same link is highlighted |
| MobileNav.Navbars.constructor | scripts/main.js:70-83 | the page starts with every drawer closed and no session |
| MobileNav.Navbars.Close | scripts/main.js:85-103 | closing a closed drawer changes nothing; otherwise the drawer closes, the session ends, the body marker clears and the toggle is focused only when asked; the invariant is kept |
| MobileNav.Navbars.Open | scripts/main.js:105-122 | afterwards this drawer is the open session and every other drawer is closed; focus moves only to this panel's first link or button, never to a previous toggle; the invariant is kept |
| MobileNav.Navbars.ToggleClick | scripts/main.js:124-130 | on an open drawer: only it closes, the session ends and its toggle takes focus (the default focus return); on a closed drawer: it opens as the session, any other open drawer closes, and focus moves only to its first link or button |
| MobileNav.Navbars.Resize | scripts/main.js:139-143 | above 900 px every drawer closes with no session and no focus move; otherwise nothing changes |
| Modals.VideoFrames | scripts/main.js:157-162 | the video container holds one iframe with the trigger's URL when the URL is truthy, and nothing otherwise |
| Modals.Controller.constructor | scripts/main.js:69 | the page starts with every modal closed, no trigger recorded and no body lock |
| Modals.Controller.FindModal | scripts/main.js:178 | returns the first modal with the id, or none when no modal has it |
| Modals.Controller.FindOpen | scripts/main.js:147 | returns the first open modal, or none exactly when no modal is open |
| Modals.Controller.ToggleBodyScroll | scripts/main.js:146-149 | afterwards the body `modal-open` flag holds exactly when some modal is open |
| Modals.Controller.InjectVideo | scripts/main.js:151-164 | only a video modal with a container changes, and its content becomes the trigger's frames |
| Modals.Controller.ClearVideo | scripts/main.js:166-175 | only a video modal with a container changes, and its content becomes empty |
| Modals.Controller.OpenModal | scripts/main.js:177-191 | an unknown id changes nothing; otherwise the first modal with the id gets its video and opens, the trigger is recorded, the body is locked and its close control is focused |
| Modals.Controller.CloseModal | scripts/main.js:193-206 | the modal loses its video and closes, the body lock is re-evaluated, and focus returns to the recorded trigger, whose record is cleared, so a second close moves no focus |
| Modals.VideoOpenClose | scripts/main.js:151-175 | opening a video modal gives one iframe for a URL and none without; closing empties it |
| Modals.NonVideoUntouched | scripts/main.js:151-175 | the content of a modal without `modal--video` is never touched |
| Router.AsciiLower | scripts/main.js:240 | upper-case ASCII letters become lower case, everything else is kept |
| Router.ClickAction | scripts/main.js:208-221 | an open trigger opens its target with itself as trigger; otherwise a close trigger closes its enclosing modal; otherwise nothing |
| Router.KeyAction | scripts/main.js:223-248 | Escape closes the active drawer if there is one, else the open modal; Enter or Space opens the trigger's modal and prevents the default exactly when the trigger is neither `button` nor `a` |
| Router.NativeTriggersIgnored | scripts/main.js:237-247 | Enter and Space on a `BUTTON` or `A` trigger do nothing |
| Router.HandleDocumentClick | scripts/main.js:208-221 | a click on an open trigger opens the first modal with its target and records it; a click on a close trigger closes its modal |
| Router.HandleDocumentKeydown | scripts/main.js:223-248 | Escape with a drawer open closes it with focus return and leaves modals alone; Escape without one closes the first open modal; other keys leave the drawers alone; Enter or Space on a custom trigger opens the first modal with its target and records the trigger; any other key leaves the modals alone |
| Router.FocusRedirect | scripts/main.js:250-274 | focus leaving the active drawer goes back to its first focusable element, which takes precedence; otherwise focus leaving the open modal goes to its close control |
| UriEncode.Encode | scripts/main.js:355 | the encoding holds only unreserved characters and '%', leaves an unreserved string as it is, and is at most twelve times longer |
| UriEncode.DecodeEncodedChar | scripts/main.js:355 | decoding an encoded character followed by anything gives back that character |
| UriEncode.DecodeEncode | scripts/main.js:355 | decoding the encoding of any string gives back the string |
| Chatbot.Trim | scripts/main.js:336 | the result is the slice of the text after its leading white space with only white space after it; it neither starts nor ends with white space, and text that already does neither is unchanged |
| Chatbot.Label | scripts/main.js:336 | the label override when it is non-empty, else the trimmed text |
| Chatbot.Message | scripts/main.js:337 | the message override when it is non-empty, else the label |
| Chatbot.WhatsappNumber | scripts/main.js:299 | the number override when it is non-empty, else 5521999999999; never empty |
| Chatbot.WhatsappHref | scripts/main.js:355-356 | the link is `https://wa.me/`, the number and `?text=`, followed only by unreserved characters and '%', so the message cannot add a `&`, `#` or `?` of its own |
| Chatbot.ResponseFor | scripts/main.js:338-367 | the response block sits after the clicked option, carries the fixed heading, and links to the number with the option's message |
| Chatbot.HeadingFor | scripts/main.js:338-350 | every option key, configured, missing or inherited, gets the fixed response heading |
| Chatbot.Widget.constructor | scripts/main.js:298-303 | the number override is read once, back-to-top visibility follows the scroll offset, and the chat starts closed with no active option and no response |
| Chatbot.Widget.ResetOptions | scripts/main.js:312-314 | every option becomes inactive and nothing else changes |
| Chatbot.Widget.ClearOptionResponses | scripts/main.js:307-310 | no response block remains |
| Chatbot.Widget.OpenChat | scripts/main.js:316-320 | the panel shows and the toggle hides |
| Chatbot.Widget.CloseChat | scripts/main.js:322-327 | the panel hides, the toggle shows, no option is active and no response remains |
| Chatbot.Widget.HandleOptionClick | scripts/main.js:329-368 | exactly the clicked option becomes active, and the responses are replaced by the single response for it, placed after it |
| Chatbot.Widget.SelectOnly | scripts/main.js:340-342 | each option is active exactly when it is the clicked one |
| Chatbot.Widget.UpdateBackToTop | scripts/main.js:370-379 | with a back-to-top control, it is visible exactly when the scroll offset exceeds 300 |
| Chatbot.WhatsappHrefRoundTrip | scripts/main.js:353-356 | the link reads back as exactly the number and the message it was built from |
| Chatbot.ResponseLinkContents | scripts/main.js:299-356 | the response link carries the number override or 5521999999999, and the message override, else the label override, else the trimmed text |
| Chatbot.SelectTwice | scripts/main.js:340-342 | selecting one option and then another leaves only the second active |

## Left out

- `loadComponent` and `boot` (fetching fragments, the inline error message, `console.error` and listener registration) are network I/O and event plumbing.
- The footer year reads the wall clock.
- Markup, CSS class strings, the iframe's other attributes and the WhatsApp icon are reduced to flags and fields.
- Focus is a ghost log of the elements focused. The 150 ms delay before the chat's close button takes focus and the smooth scroll of the back-to-top control are browser timing and are not modelled.
- The chat avatar source is read by `initChatbot` but never used, so it is not modelled.
- Widgets whose markup lacks a required part are not initialised by the source. They have no state here: a navbar without toggle, panel or backdrop, and a chat root without toggle, window, close button, messages or options container.
- MobileNav.Navbars.constructor: requires every drawer to start closed, as the header markup has them. The source does not check this.
- Modal lookup by id is modelled as `querySelector`'s first match in document order. The case where an enclosing `.modal` found by `closest` lacks an id is covered, because modals are identified by position.
- Modals.Controller.constructor: requires every modal to start closed, as the markup has them. The source sets no body lock at load, so a modal already open in the markup would leave the body unlocked until the first open or close.
- Modals.Controller.FindModal: models the selector `[data-modal-id="<id>"]` as string equality. It assumes ids hold no `"`, `\`, line break or other character that changes the selector. An id such as `x"], [data-modal-id="y` selects another modal, and one with a lone `"` makes `querySelector` throw.
- Modals.Controller.OpenModal: inherits the same assumption about ids. "An unknown id changes nothing" holds only for ids that leave the selector intact.
- Modals.VideoFrames: models the iframe markup as one iframe whose `src` is the URL itself. It assumes URLs hold no `"`, `<`, `>` or `&`. The source pastes the URL into markup unescaped, so a `"` would cut the `src` and the markup after it would be parsed.
- Router.HandleDocumentClick: states the opened or closed modal and the trigger record, not the whole new state. `OpenModal` and `CloseModal` state the whole new state.
- Router.HandleDocumentKeydown: states which drawer or modal closes or opens, the focus return and what stays unchanged, not the whole new state of the modals. `Close`, `OpenModal` and `CloseModal` state the whole new state.
- Router.AsciiLower: lowers only ASCII letters, which is all that HTML tag names contain. Full Unicode case mapping is not modelled.
- Router.FocusRedirect: takes DOM containment as given booleans.
- UriEncode.Encode: works on Unicode scalar values. A JavaScript string may hold a lone surrogate, on which `encodeURIComponent` throws a URIError. That case is not modelled.
