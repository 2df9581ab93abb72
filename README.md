# Site builder and browser scripts of the LIFTS website, modelled in Dafny

The repository is a static website. `build.py` takes the site data from the YAML front matter of a data
file. It then substitutes `{{ key.path }}` placeholders in the HTML pages with values from that data, and it
reports keys that are missing or unused. Three browser scripts hold the page behaviour:

- `scripts/main.js`: the navigation, the mission countdown, the gallery lightbox, the filter bar and form checking;
- `scripts/components.js`: modals, accordions and tabs;
- `scripts/utils.js`: time-remaining arithmetic and form validators.

The model has one module per concern:

- `Wrappers`: `Option` and `Result`.
- `Strings`: the string operations both languages share (`split` on one character, `join`, `strip`/`trim`) and the whitespace classes of Python and of JavaScript.
- `SiteData`: the data tree, `get_nested_value` (the loop as a method, proved against the path-following function `NestedValue`), `flatten_dict` (the loop as a method, proved against `Flatten`) and `count_data_keys`.
- `FrontMatter`: the front-matter slicing and the error cases of `load_site_data`.
- `Placeholders`: the placeholder expression `\{\{\s*([\w.]+)\s*\}\}`, `find_placeholders`, `replace_placeholders` (with the counting replacer), `validate_placeholders` and `find_unused_keys`.
  - The regular-expression scan is a deterministic matcher. It is proved sound and complete against a positional reading of the expression.
  - `re.sub` and `re.findall` are a left-to-right scan into text characters and matched placeholders.
- `Js`: JavaScript's truncating `%`, `String.length` in UTF-16 units, `trim`, and the shared `document.body` whose `overflow` the scripts lock.
- `Countdown`: the countdown's day/hour/minute/second breakdown and two-digit padding, and `getTimeRemaining`, proved to compute the same fields.
- `Navigation`, `Lightbox`, `Filters`, `FormValidation`, `Components`: the page handlers.
  - Each is a class whose fields are the `active`/`error`/display flags the handler changes.
  - Each handler is a method with `modifies`, written with the source's loops.

Event registration is left out of the model. Each handler is a method, called once per event.

## Model

| member | source | states |
|---|---|---|
| Strings.Split | build.py:111 | `str.split` on one character gives at least one piece, and no piece contains the separator |
| Strings.JoinSplit | build.py:77-91 | joining the pieces of a split with the separator gives back the string |
| Strings.SplitJoin | build.py:77-91 | splitting a join of separator-free pieces gives back the pieces |
| Strings.LastPiece | scripts/main.js:38 | the last piece of a split is the suffix after the last separator |
| Strings.TrimEmpty | scripts/utils.js:111 | a string trims to nothing exactly when all its characters are whitespace |
| SiteData.Find | build.py:115-116 | lookup in a dict fails exactly when the key is absent, and otherwise yields a stored pair |
| SiteData.FindUnique | build.py:115-116 | in a dict, looking up an entry's key yields that entry's value |
| SiteData.ResolveAppend | build.py:114-118 | following a path in two parts is following the first part, then the second from where it ended, and a failed lookup stays `None` |
| SiteData.ResolveLast | build.py:114-120 | the lookup is `None` unless every segment is found in a dict, and otherwise it is the value under the last segment |
| SiteData.NestedValue | build.py:106-120 | `get_nested_value` of data that is not a dict is `None`, and a path without a dot is one dict lookup, `None` when the key is absent |
| SiteData.GetNestedValue | build.py:106-120 | the loop over the `.`-separated segments returns the value the path reaches, or `None` at the first absent segment or non-dict value |
| SiteData.Put | build.py:132 | assigning into a dict adds the key, stores the pair and keeps every other pair |
| SiteData.PutExisting | build.py:132 | assigning to a key already present keeps every position and replaces only that key's value |
| SiteData.PutAppends | build.py:132 | assigning to a new key appends the pair at the end |
| SiteData.DictOf | build.py:132 | `dict(items)` has distinct keys, exactly the keys of `items`, and only pairs from `items` |
| SiteData.DictOfLastWins | build.py:132 | in `dict(items)` a pair that no later pair with the same key overrides is kept, so each key holds its last value |
| SiteData.DictOfFirstOrder | build.py:132 | `dict(items)` lists its keys in the order of their first occurrence in `items` |
| SiteData.DictOfUnique | build.py:132 | `dict(items)` of pairs with distinct keys is those pairs, in order |
| SiteData.Flatten | build.py:123-132 | the flattened dict has pairwise distinct dotted keys |
| SiteData.FlattenDict | build.py:123-132 | the loop, with its recursive calls for nested dicts, computes exactly the flattened dict |
| SiteData.FlattenLeaves | build.py:128-131 | every value of the flattened dict is a non-dict value |
| SiteData.UniqueKeysCount | build.py:137 | the length of a dict is the number of its distinct keys |
| SiteData.CountDataKeys | build.py:135-137 | `count_data_keys` is the number of distinct flattened keys (`CountDataKeysLeaves` ties it to the number of leaves) |
| SiteData.FlattenResolves | build.py:106-132 | when no key contains `.` and no top-level empty key holds a dict, every flattened pair `(k, v)` satisfies `get_nested_value(data, k) == v` |
| SiteData.EmptyTopKeyBreaksLookup | build.py:127 | `{"": {"x": 1}}` flattens to `{"x": 1}`, yet the lookup of `x` finds nothing |
| SiteData.FlatItemsDistinct | build.py:123-132 | under dot-free keys, every collected key splits into the path of its leaf, the collected keys are pairwise distinct, and there is one per leaf |
| SiteData.FlatTail | build.py:127-131 | one entry contributes its leaf under the joined path, or its flattened nested dict, whose keys extend that path, one per leaf |
| SiteData.CountDataKeysLeaves | build.py:135-137 | when no key contains `.` and no top-level empty key holds a dict, `count_data_keys` is the number of leaves of the tree |
| SiteData.DottedKeyCollision | build.py:127-137 | `{"a.b": 1, "a": {"b": 2}}` has two leaves but flattens to the one key `a.b` holding 2, so `count_data_keys` is 1 |
| FrontMatter.ClosingLine | build.py:81-85 | finds the first line at or after a position that strips to `---`, with no delimiter line before it; and none exists when it finds nothing |
| FrontMatter.FrontMatterText | build.py:72-91 | front matter is found only in content that starts with `---`, and the only failures are the missing opening and the missing closing delimiter |
| FrontMatter.ExtractFrontMatter | build.py:72-91 | the loop that searches for the closing line computes the front-matter text or the error |
| FrontMatter.FrontMatterSpec | build.py:72-91 | extraction fails exactly without an opening `---` or without a later delimiter line; otherwise it is the lines before the first delimiter, joined by newlines |
| FrontMatter.FrontMatterLines | build.py:77-91 | the extracted text splits back into exactly the lines between the delimiters, none of which strips to `---` |
| FrontMatter.LoadSiteData | build.py:63-103 | a missing file, a missing delimiter, a YAML error or a non-mapping document is the matching error; otherwise the result is the loaded mapping, a dict with distinct keys at every level |
| Placeholders.MatchRest | build.py:56 | a match that continues at a position ends after it, with the `}}` inside the content |
| Placeholders.MatchAt | build.py:56 | a match at `i` spans at least the five characters `{{k}}` and ends inside the content |
| Placeholders.LeadingSound | build.py:56 | a match found after `{{` consists of whitespace, a non-empty run of word characters and dots, whitespace and `}}`, and its key is that run |
| Placeholders.MatchAtSound | build.py:56 | every match the scanner finds is a match of the expression, and its key is the captured group |
| Placeholders.LeadingComplete | build.py:56 | every split of the text after `{{` into whitespace, key run, whitespace and `}}` is found, with that key |
| Placeholders.MatchAtComplete | build.py:56 | every match of the expression at `i` (the key run taken maximal, as the greedy group does) is found by the scanner with that key |
| Placeholders.ScanRaw | build.py:229 | the scan's pieces, written back, are the content: text between matches is copied |
| Placeholders.ScanPlaceholdersMatch | build.py:56 | every key the scan yields is non-empty and made of word characters and dots |
| Placeholders.FindPlaceholders | build.py:144-146 | every key `find_placeholders` returns is non-empty and made of word characters and dots |
| Placeholders.ScanOne | build.py:229 | one step of the scan: a match or one character, after which the scan resumes |
| Placeholders.Replacer | build.py:212-227 | the replacer returns `str(value)` and counts one for a key that resolves, and returns the match unchanged and counts nothing for one that does not |
| Placeholders.ReplaceNext | build.py:212-229 | one step of substitution writes the rendering of the next piece and counts its resolved key |
| Placeholders.ReplaceFrom | build.py:229 | substitution from a position renders every piece of the scan, counting the resolved keys |
| Placeholders.ReplacePlaceholders | build.py:197-230 | the new content renders every match by its value (unresolved ones unchanged), and the count is the number of found keys that resolve |
| Placeholders.Render | build.py:212-229 | the text `re.sub` produces with the replacer; when no key of the pieces resolves it is the original text |
| Placeholders.UnresolvedUnchanged | build.py:217-230 | content in which no key resolves, including content with no match, is returned unchanged with count 0 |
| Placeholders.CountResolved | build.py:212-218 | the replacement count is at most the number of found placeholders, equal exactly when every key resolves, and zero when none does |
| Placeholders.UsedKeysSource | build.py:175-177 | every used key comes from the placeholders of some readable file |
| Placeholders.UsedKeysCover | build.py:175-177 | every placeholder of every readable file is a used key |
| Placeholders.FileMapSource | build.py:175-176 | every path in the file map is that of a file with placeholders |
| Placeholders.FileMapCover | build.py:175-176 | every file with placeholders has its path in the file map |
| Placeholders.FileMapLast | build.py:175-176 | a path maps to the placeholders of the last file with placeholders under that path |
| Placeholders.ReadPlaceholders | build.py:167-173 | an unreadable file gives nothing, and a readable one gives its placeholders |
| Placeholders.AddMissing | build.py:179-182 | the inner loop adds exactly the placeholder keys whose lookup is `None` |
| Placeholders.ValidatePlaceholders | build.py:149-184 | the used keys are the placeholders of all readable files, a used key is missing exactly when its lookup is `None` (so the missing keys are a subset of the used keys), and each path maps to its last file's placeholders |
| Placeholders.FindUnusedKeys | build.py:187-190 | the unused keys are exactly the flattened keys minus the used keys, so they are disjoint from the used keys |
| Js.Rem | scripts/main.js:87-89 | JavaScript's `%` leaves a remainder that carries the dividend's sign and is smaller than the divisor in absolute value |
| Js.DivUnique | scripts/main.js:86-89 | quotient and remainder are the only pair that recomposes the dividend with the remainder in range |
| Js.RemWrapOnce | scripts/main.js:221-229 | a dividend below twice the divisor wraps round at most once |
| Js.Utf16Length | scripts/utils.js:113-118 | `value.length` lies between the number of characters and twice that |
| Js.Utf16LengthBmp | scripts/utils.js:113-118 | `value.length` is the number of characters exactly when none lies outside the Basic Multilingual Plane |
| Countdown.FloorDiv | scripts/main.js:86 | `Math.floor(n / m)` of a real quotient is integer division |
| Countdown.DivDiv | scripts/main.js:86-89 | dividing by `a` and then `b` is dividing by `a * b`, and the remainder by `a * b` carries the quotient's remainder by `b` |
| Countdown.Breakdown | scripts/main.js:86-89 | for a remaining span, the four fields are the whole seconds written in the mixed radix days:24:60:60 |
| Countdown.BreakdownSpec | scripts/main.js:86-89 | for a remaining span, hours < 24, minutes < 60, seconds < 60 and the fields recompose the span to within the last second |
| Countdown.BreakdownUnique | scripts/main.js:86-89 | the fields are the only in-range ones that recompose the span to within a second |
| Countdown.DecimalDigits | scripts/main.js:96-99 | `toString` writes digits only, with no leading zero, one digit exactly below 10, and the digits denote the number |
| Countdown.Pad2 | scripts/main.js:96-99 | `toString().padStart(2, '0')` of a field has at least two characters and leaves a number from 10 on as its plain decimal |
| Countdown.Pad2Spec | scripts/main.js:96-99 | two-digit padding prefixes one `0` exactly below 10, keeps wider numbers (days of 100 or more) at full width, and keeps the value |
| Countdown.ShowsPadded | scripts/main.js:96-99 | a padded field is digits that denote the field, exactly two of them below 100 |
| Countdown.Display | scripts/main.js:83-111 | while time remains every element shows its in-range field's digits; once the target has passed, or when it did not parse, all four show `00` |
| Countdown.CountdownView.Update | scripts/main.js:83-111 | one tick writes the display for the current time |
| Countdown.TruncQuot | scripts/utils.js:22-24 | `Math.trunc` of a real quotient of integers is the truncating integer quotient |
| Countdown.FModQuot | scripts/utils.js:22-24 | `(t / a) % b` on numbers is the integral remainder of `t` by `a * b`, divided by `a` |
| Countdown.FloorFMod | scripts/utils.js:22-24 | `Math.floor((t / a) % b)` is the floor of that remainder divided by `a` |
| Countdown.GetTimeRemaining | scripts/utils.js:17-26 | `total` is target minus now, and `days` is the total divided by a day and rounded down, also for a span that has run out |
| Countdown.TimeRemainingAgrees | scripts/utils.js:17-26 | `total` is target minus now, and for every span the four fields equal those the countdown computes |
| Countdown.TimeRemainingBounds | scripts/utils.js:21-24 | for a span that has not run out, the fields are in range and recompose the total to within a second |
| Navigation.CurrentPage | scripts/main.js:38 | the current page is never empty and holds no `/` |
| Navigation.CurrentPageSpec | scripts/main.js:38 | the current page is the part of the path after its last `/`, or `index.html` when that is empty |
| Navigation.EmptyPageDisjunctDead | scripts/main.js:42 | the `currentPage === ''` disjunct never fires: a link is active exactly when its `href` is the current page |
| Navigation.NavLinks.MarkCurrent | scripts/main.js:39-47 | afterwards each link is active exactly when its `href` is the current page |
| Navigation.MobileNav.ToggleClick | scripts/main.js:20-24 | the toggle flips both flags, the body is locked exactly when the menu is open, and toggle and menu stay in step |
| Navigation.MobileNav.LinkClick | scripts/main.js:27-34 | a menu link click closes toggle and menu and unlocks the body |
| Navigation.Header.OnScroll | scripts/main.js:57-67 | the header is marked `scrolled` exactly when the offset exceeds 100, and `lastScroll` records the offset |
| Lightbox.SourcesMembers | scripts/main.js:195-200 | a source is in `images` exactly when some gallery item has that image |
| Lightbox.CollectSources | scripts/main.js:195-204 | the loop collects the images of the items that have one, in order |
| Lightbox.Sources | scripts/main.js:195-204 | `images` has at most as many entries as there are gallery items |
| Lightbox.NextIndex | scripts/main.js:226-229 | `(i + 1) % n` lands on an image from any index that is not negative, and on an image index it is the next one, the last wrapping round to the first |
| Lightbox.PrevIndex | scripts/main.js:221-224 | `(i - 1 + n) % n` lands on an image from any index that is not negative, and on an image index it is the previous one, the first wrapping round to the last |
| Lightbox.StepsInverse | scripts/main.js:221-229 | `showPrev` after `showNext`, and `showNext` after `showPrev`, restore the index |
| Lightbox.Gallery.ItemClick | scripts/main.js:199-212 | a click sets the index to the item's position among all items and opens the lightbox on its image, locking the body |
| Lightbox.Gallery.Close | scripts/main.js:214-219 | closing deactivates the lightbox and unlocks the body |
| Lightbox.Gallery.ShowPrev | scripts/main.js:221-224 | the index steps back cyclically, stays in range and the image shown follows it |
| Lightbox.Gallery.ShowNext | scripts/main.js:226-229 | the index steps on cyclically, stays in range and the image shown follows it |
| Lightbox.Gallery.LightboxClick | scripts/main.js:235-239 | only a click on the backdrop itself closes the lightbox |
| Lightbox.Gallery.KeyDown | scripts/main.js:242-248 | while open, Escape closes and unlocks the body, the arrows step and show the new image with the body lock unchanged, and any other key changes nothing; while closed nothing changes |
| Lightbox.StepAfterClickMisaligned | scripts/main.js:195-202 | after a click on `a` in `[no image, a, b]`, a step forward shows `a` again instead of `b` |
| Lightbox.ImageIndex | scripts/main.js:195-202 | the index of an item's image among `images` is the number of images before it, and `images` holds the item's image there |
| Lightbox.NextFromImageIndex | scripts/main.js:226-229 | from the image index of a clicked item, a step forward reaches the image of the next item that has one |
| Filters.FilterBar.Click | scripts/main.js:256-276 | with items present, exactly the clicked button is active; an item is displayed exactly when the filter is `all` or equals its own, and hidden items lose `active`; without items nothing changes |
| FormValidation.IndexOf | scripts/utils.js:108 | finds the first occurrence of a character, and none exists when it finds nothing |
| FormValidation.Email | scripts/utils.js:107-109 | an accepted address has at least five characters, an `@` and no whitespace |
| FormValidation.EmailSound | scripts/utils.js:107-109 | every string `validate.email` accepts matches `^[^\s@]+@[^\s@]+\.[^\s@]+$` |
| FormValidation.EmailComplete | scripts/utils.js:107-109 | every match of the expression is accepted |
| FormValidation.EmailMatchesPattern | scripts/utils.js:107-109 | `validate.email` holds exactly when the string has no whitespace, exactly one `@` with a non-empty part before it, and a `.` after it that is neither first nor last in the domain |
| FormValidation.Required | scripts/utils.js:110-112 | `validate.required` is false for `null`/`undefined` and for blank strings, and true exactly when some character is not whitespace |
| FormValidation.MinLength | scripts/utils.js:113-115 | the bound is inclusive; met by any value with at least `min` characters, and for text inside the Basic Multilingual Plane exactly then |
| FormValidation.MaxLength | scripts/utils.js:116-118 | the bound is inclusive; a value within it has at most `max` characters, and for text inside the Basic Multilingual Plane exactly then |
| FormValidation.InputOk | scripts/main.js:292-307 | the handler's check of one input is `validate.required`, and for an email input also `validate.email` |
| FormValidation.Form.Submit | scripts/main.js:285-316 | each required input is marked `error` exactly when it fails its check; the form is valid exactly when none fails, so a valid form leaves no error; a valid form with a success message shows it and is reset |
| Components.ElementById | scripts/components.js:39 | `getElementById` finds the first modal with the id, and finds nothing for the empty id or an id no modal carries |
| Components.FirstWith | scripts/components.js:47 | finds the first modal at or after a position with the id, and none exists when it finds nothing |
| Components.Modals.Open | scripts/components.js:38-44 | the modal found by the id becomes active and the body is locked; an unknown id changes nothing |
| Components.Modals.Close | scripts/components.js:46-52 | the modal found by the id becomes inactive and the body is unlocked even if another modal is open; an unknown id changes nothing |
| Components.Modals.BackdropClick | scripts/components.js:56-61 | a backdrop click closes the modal its id finds, which is the clicked one when its id reaches it, and unlocks the body; an empty id changes nothing |
| Components.Modals.Escape | scripts/components.js:64-70 | Escape closes exactly the open modals that their own id reaches and unlocks the body when any such lookup succeeded |
| Components.EscapeClosesAll | scripts/components.js:64-69 | with non-empty, unique ids no modal is active after Escape |
| Components.EscapeMissesUnreachable | scripts/components.js:64-69 | an open modal without an id, or sharing an earlier modal's id, stays open after Escape |
| Components.AfterEscape | scripts/components.js:64-70 | the modals open after Escape are those that were open and that no lookup by id reaches; Escape never opens a modal |
| Components.Accordions.Click | scripts/components.js:78-92 | the click closes every item of the clicked item's accordion and opens the clicked item unless it was open |
| Components.AccordionClick | scripts/components.js:78-92 | after a click on an item, no other item of its accordion is open |
| Components.AccordionAtMostOne | scripts/components.js:84-91 | after a click at most one item of that accordion is open |
| Components.AccordionToggle | scripts/components.js:80-91 | clicking an open item leaves its accordion closed; clicking a closed one leaves exactly that item open |
| Components.AccordionOthersUntouched | scripts/components.js:83-86 | a click changes no item of another accordion |
| Components.PanelIn | scripts/components.js:115 | finds the first panel of the container with the id, and none exists when it finds nothing |
| Components.TabSets.Click | scripts/components.js:101-116 | in the clicked button's container exactly that button is active, and exactly the panel named by its `data-tab` (none, reported as an error, when no panel has that id); other containers are untouched |

## Findings

| source | as written | input that shows it | evidently intended | confidence | as-written member | corrected member |
|---|---|---|---|---|---|---|
| scripts/main.js:195-202 | a click sets `currentIndex` to the item's position among all gallery items, but `images` skips items without an `<img>` | items `[no image, a, b]`: a click on `a` sets the index to 1, and `showNext` then shows `images[(1 + 1) % 2]`, which is `a` again | the index is the clicked image's position in `images`, so `showNext` moves on to `b` | medium, not executed | Lightbox.StepAfterClickMisaligned | Lightbox.NextFromImageIndex |

`Lightbox.Gallery` keeps the behaviour as written. `Lightbox.ImageIndex` is the intended index.

## Left out

- Reading and writing files, printing, `sys.exit`, argument parsing, `main()`, the list of HTML pages and `generate_js_data` are not modelled. A file is its content, or `None` when it does not exist.
- `yaml.safe_load` and `str(value)` are parameters (`parse`, `show`). Every YAML value that is neither a mapping nor `null` is one opaque `Leaf`. The loader is required to return dicts with distinct keys, as Python dicts have.
- Mapping keys are strings. YAML also loads integer, boolean and `null` keys (`2024:`). `get_nested_value` never finds such a key, because it compares with the string segment. `flatten_dict` keeps a top-level one as it is, so `find_unused_keys` reports it unused. The model has no such keys and so captures neither effect.
- SiteData.CountDataKeys: counts distinct dotted keys, as the code does, not the leaves that the docstring at build.py:136 names. The two agree when no key contains `.` and no top-level empty key holds a dict (`CountDataKeysLeaves`). A key with a `.` can collide with a nested path and count once (`DottedKeyCollision`).
- Python's `\w` is Unicode-aware. The model's `\w` is ASCII letters, digits and underscore.
- Strings are sequences of code points. There is no encoding step and no Unicode normalisation.
- SiteData.GetNestedValue: a key that is present with value `null` and a key that is absent both give `Null`, as `None` does in Python.
- JavaScript numbers are unbounded integers or exact reals here. Rounding of floating-point division is not modelled. Neither are spans beyond 2^53 ms.
- A target date that does not parse is `None` in the countdown. `getTimeRemaining` takes both times as integers, so its `NaN` case is not modelled.
- Countdown.CountdownView.Update: the four elements are assumed present. The `if (daysEl)` guards and the `setInterval` tick are not modelled.
- Lightbox.Gallery.ShowPrev: requires at least one image. With none, JavaScript computes `NaN` and sets the image source to `undefined`.
- Lightbox.Gallery.ShowNext: requires at least one image, for the same reason.
- Filters.FilterBar.Click: the `active` class that a matched item gets 10 ms later by `setTimeout` is not modelled. A matched item keeps its previous flag.
- Form inputs are text or email inputs with string values. Checkboxes, selects and `preventDefault` are not modelled.
- Components.Modals: `getElementById` searches the modals only, not other elements of the page that might share an id.
- Components.Accordions.Click: every item lies in an accordion, and accordions are not nested. An item outside any accordion would raise a `TypeError` before changing anything.
- Components.TabSets.Click: every button lies in a tabs container, and containers are not nested. A `data-tab` that is not a valid CSS identifier either makes `querySelector` throw (one starting with a digit) or is read as a different selector (`a.b`, `a b`, `a>b`), which matches other elements or none; the model compares ids literally. `querySelector('#id')` also matches any descendant of the container with that id, not only a `.tab-panel`; the model searches the container's panels only.
- The toast, smooth scroll, scroll reveal, lazy loading, parallax, horizontal scroll, video popup, `formatDate`, `debounce`, `throttle`, `storage`, `params`, `api` and `scripts/popup.js` are outside the modelled core. They are timers, pixel geometry or wrappers over browser APIs.
