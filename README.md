# SVXsion.js core, modelled in Dafny

SVXsion.js is a browser toolkit. It has a core object (`code/SVXsion.js`) and
two plugins, ComPAC (`Plugins/ComPAC/ComPAC.js`) and StaMina
(`Plugins/StaMina/StaMina.js`). Most of it drives the DOM and the network.
This project models the parts that decide something, with the browser
turned into parameters:

- the core's plugin registry;
- the animation frame step and the effects built on it, and the smooth-scroll step;
- the carousel's slide state, the tooltip guard and `throttle`;
- cookie lookup, form serialisation and validation;
- vendor-prefix expansion, date formatting, `truncate`, `capitalize` and `toggle`;
- ComPAC's pagination template decisions and its data filtering, search, paging and sorting;
- ComPAC's date and duration helpers, the small widget handlers and the typewriter;
- StaMina's collection algorithms, array, object, number and string helpers, and `pipe`/`compose`.

Modules follow the source. The `Js*` modules hold shared JavaScript
semantics:

- `JsCore`: values, property lookup, `slice`, number-to-string, `padStart`.
- `JsText`: whitespace, `trim`, ASCII case, `indexOf`, `split`, `join`,
  string `replace` with a string pattern.

The `Svx*` modules model `code/SVXsion.js`. The `Pac*` modules model
ComPAC, and the `Sta*` modules model StaMina.

State that the source updates in place is modelled as a class with
`modifies` clauses:

- the registry, the carousel, the tooltip, the throttle wrapper and the
  smooth-scroll closure;
- the accordion, tab and star-rating element flags;
- the typewriter.

In-place array updates keep an `array`: `sortArray`, `clearForm`, `toggle`,
the carousel opacities and the widget class flags. Loops in the source
become methods with invariants. Each of them is tied to a specification
function, and the properties are proved about that function.

Numbers:

- Indices, pages, milliseconds and seconds are `int`.
- Animation values, `sum` and `clamp` are exact `real`s.
- Strings are `seq<char>` with ASCII case mapping.

## Model

| member | source | states |
|---|---|---|
| SvxPlugins.Registry.Use | code/SVXsion.js:64-85 | A name already holding a truthy plugin, or a throwing factory, leaves the registry and the init log unchanged. Otherwise the plugin is stored in both the private and the public object, and its `init` runs after the store. |
| SvxPlugins.Registry.Install | code/SVXsion.js:70-83 | A throwing factory changes nothing. A returned plugin is stored before `init` is run, so a throwing `init` leaves it registered. |
| SvxPlugins.FirstWriterWins | code/SVXsion.js:65-68 | Once a truthy plugin is stored under a name, later registrations of that name are refused, whatever is stored under other names. |
| SvxPlugins.FalsyDoesNotBlock | code/SVXsion.js:65 | A stored falsy plugin does not block re-registration. |
| SvxPlugins.InheritedNameRefused | code/SVXsion.js:65 | As written, a fresh registry refuses `toString`, which is inherited from `Object.prototype`. |
| SvxPlugins.Registry.UseOwn | code/SVXsion.js:64-85 | The registry with an own-property guard: same effects as `Use`, but blocked only by a plugin stored under the name itself. |
| SvxPlugins.OwnGuardAcceptsFresh | code/SVXsion.js:65 | The own-property guard accepts every name on a fresh registry. The two guards agree except on inherited names. |
| SvxAnimation.Ease | code/SVXsion.js:577-588 | The four named curves and the linear default; their range and monotonicity are stated by the next lemmas. |
| SvxAnimation.EaseRange | code/SVXsion.js:577-588 | Every easing curve maps 0 to 0 and 1 to 1, and stays in [0,1] on [0,1]. |
| SvxAnimation.EaseMonotone | code/SVXsion.js:577-588 | Every easing curve is non-decreasing on [0,1]. |
| SvxAnimation.EaseInOutJoins | code/SVXsion.js:582-585 | Both `ease-in-out` branches give 0.5 at 0.5. |
| SvxAnimation.Progress | code/SVXsion.js:574-575 | Progress is at most 1. It is 1 exactly when the duration has elapsed, and negative exactly when the elapsed time is negative. |
| SvxAnimation.Styled | code/SVXsion.js:596-600 | `opacity` is written unitless and every other property in `px`, with the computed value. |
| SvxAnimation.Tracks | code/SVXsion.js:564-571 | One track per animated property, in key order. Each starts at the parsed computed style, or 0 when that is unparsable or missing. |
| SvxAnimation.WritesAt | code/SVXsion.js:591-601 | Each property is written, in order, with `start + (end - start) * eased`. |
| SvxAnimation.Frame | code/SVXsion.js:573-606 | A frame writes every property and requests another frame exactly when the elapsed time is below the duration. |
| SvxAnimation.FrameInRange | code/SVXsion.js:573-606 | From the start time on, every written value lies between its start and end value. Once the duration has passed, each value is the end value and no further frame is requested. |
| SvxAnimation.FrameMonotone | code/SVXsion.js:573-601 | Between two frames from the start time on, every value moves towards its end value. |
| SvxAnimation.ProgressMonotone | code/SVXsion.js:574 | Progress is non-decreasing in time. |
| SvxAnimation.EarlyFrameOvershoots | code/SVXsion.js:563-575 | A frame timestamp earlier than the start time makes a linear 0-to-1 opacity fade write -0.025. |
| SvxAnimation.ClampedProgress | code/SVXsion.js:574 | Progress clamped to [0,1]. It agrees with the source's progress from the start time on. |
| SvxAnimation.ClampedFrame | code/SVXsion.js:573-606 | The frame step with the clamped progress. It equals the source's frame from the start time on. |
| SvxAnimation.ClampedFrameInRange | code/SVXsion.js:573-606 | With the clamp, every frame's values lie between the start and end values, including early frames. |
| SvxAnimation.SmoothScroll.Step | code/SVXsion.js:824-834 | The start time is taken at the first frame, and again while it is 0. The position is `start + distance * progress` over 800 ms, and another frame is requested while less than 800 ms have passed. |
| SvxAnimation.ScrollPositionRange | code/SVXsion.js:824-834 | Every scroll position lies between the start and the target. It is the start at the first frame and the target once 800 ms have passed. |
| SvxEffects.Apply | code/SVXsion.js:591-601 | Applying style writes sets exactly the written properties on top of the existing ones. |
| SvxEffects.ApplyWritten | code/SVXsion.js:591-601 | A property ends with the value of its last write. |
| SvxEffects.Run | code/SVXsion.js:613-662 | As written, an effect runs its set-up writes and then the last frame, and never calls the caller's callback. |
| SvxEffects.LastFrame | code/SVXsion.js:613-662 | The last frame of each effect writes its single target property with its target value. |
| SvxEffects.ShowingEffectsEnd | code/SVXsion.js:613-647 | `fadeIn` ends with opacity 1 and display `block`. `slideDown` ends at the full scroll height, displayed with overflow hidden. |
| SvxEffects.HidingEffectsNeverHide | code/SVXsion.js:624-662 | Whatever the element's `display` was (or its absence), `fadeOut` and `slideUp` leave it so, and the callback never runs, because `animate` ignores the fifth argument. |
| SvxEffects.RunCompleted | code/SVXsion.js:624-662 | The effect followed by its completion function. The callback runs once when one is given. |
| SvxEffects.CompletedHidingEffects | code/SVXsion.js:624-662 | With the completion function called, `fadeOut` ends transparent with display `none`. `slideUp` ends with display `none` and height and overflow reset. |
| SvxEffects.CompletedFadeOut | code/SVXsion.js:624-633 | With the completion function called, `fadeOut` ends at opacity 0 with display `none`, and the callback runs once. |
| SvxEffects.CompletedSlideUp | code/SVXsion.js:649-662 | With the completion function called, `slideUp` ends with display `none`, height and overflow reset to `''`, and the callback runs once. |
| SvxCarousel.NextIndex | code/SVXsion.js:1059-1062 | The next index stays in [0,n) and wraps from the last slide to 0. |
| SvxCarousel.PrevIndex | code/SVXsion.js:1064-1067 | The previous index stays in [0,n) and wraps from 0 to the last slide. |
| SvxCarousel.NextPrevInverse | code/SVXsion.js:1059-1067 | `prev` undoes `next` and `next` undoes `prev`. |
| SvxCarousel.NextTimesRotates | code/SVXsion.js:1059-1062 | k presses of `next` advance the index by k modulo the slide count. |
| SvxCarousel.Carousel.ShowSlide | code/SVXsion.js:1052-1057 | Afterwards exactly the chosen slide has opacity 1 and every other slide 0, and the index is stored. |
| SvxCarousel.Carousel.Next | code/SVXsion.js:1059-1062 | Keeps the invariant that exactly the current slide is shown, and moves to the next index. |
| SvxCarousel.Carousel.Prev | code/SVXsion.js:1064-1067 | Keeps the invariant that exactly the current slide is shown, and moves to the previous index. |
| SvxTooltip.Tooltip.Show | code/SVXsion.js:894-923 | Show does nothing while a node is held. Otherwise it creates one node, attaches it and holds it. |
| SvxTooltip.Tooltip.Hide | code/SVXsion.js:944-949 | Hide removes and releases the node only when one is held and attached. Otherwise nothing changes. |
| SvxTooltip.ShowThenHide | code/SVXsion.js:894-949 | From any state holding no node, show then hide returns to holding no node, with exactly one node created. |
| SvxTooltip.DetachedStaysStuck | code/SVXsion.js:894-949 | Once the held node is removed by something else, no sequence of shows and hides releases it or creates another node. |
| SvxThrottle.Throttle.Call | code/SVXsion.js:767-776 | The function runs exactly when at least `limit` has passed since the last recorded call. The time is recorded only when `func` returns; a throw leaves `lastCall` as it was. The spacing invariant over recorded calls is kept. |
| SvxThrottle.CallOutcome | code/SVXsion.js:771-774 | One call: `func` runs iff `now - lastCall >= limit`; `lastCall` becomes `now` only if it ran and did not throw. |
| SvxThrottle.ThrowLeavesOpen | code/SVXsion.js:772-773 | With limit 300, a call at 1000 whose `func` throws leaves the wrapper open, so a call at 1001 runs `func` again. |
| SvxThrottle.RecordedSpacing | code/SVXsion.js:771-774 | After a call whose `func` returned, the next call runs iff at least `limit` has passed. |
| SvxThrottle.Spacing | code/SVXsion.js:771-774 | Recorded calls (those whose `func` returned) k apart in the sequence are at least k·limit apart in time. |
| SvxCookies.GetCookie | code/SVXsion.js:704-714 | The result is `null` exactly when no trimmed `;`-separated entry starts with `name=`. Otherwise it is the decoded rest of the first such entry. |
| SvxCookies.IndexOfZero | code/SVXsion.js:709 | `indexOf(nameEQ) === 0` holds exactly when the string starts with `nameEQ`. |
| SvxCookies.NoneBeforeMeans | code/SVXsion.js:707-713 | The loop's record "no entry before `n` matched" means that none of the first `n` entries starts with `name=`. |
| SvxCookies.MatchesOwnKey | code/SVXsion.js:709 | For `key=value` entries and names without `=`, an entry matches exactly when its key is the name. So `a` does not match `ab=1`, and the value is what follows `=`. |
| SvxForms.SerializeForm | code/SVXsion.js:436-445 | A key appears exactly when some entry has it. It maps to the grouped values of that key in entry order, where leading empty values are overwritten rather than grouped. |
| SvxForms.GroupedStep | code/SVXsion.js:437-444 | One more entry updates a key's result exactly as the loop body does. |
| SvxForms.GroupedKeepsAll | code/SVXsion.js:437-444 | When the first value is non-empty, a key maps to its single value, or to all its values in order. |
| SvxForms.FirstFailure | code/SVXsion.js:481-524 | Returns the first failing check in the order required, min, max, email, match, or none when every check passes. |
| SvxForms.ValidateForm | code/SVXsion.js:450-528 | A missing form gives `{isValid: false, errors: {}}`. Otherwise `isValid` holds exactly when no error was recorded, and only rule names carry errors. A rule's field has an error exactly when its field is present and some check fails, and the error is the first failing check. |
| SvxForms.IsEmailMeaning | code/SVXsion.js:507-508 | The e-mail recogniser holds exactly when the string has no whitespace and one `@` after a non-empty local part, followed by a domain with a `.` that has a character on each side. |
| SvxUtils.AddPrefix | code/SVXsion.js:33-50 | The result holds exactly the keys written, each with its last written value. Every property is copied, and each `transform*` or `transition*` property is also copied under the four vendor prefixes. |
| SvxUtils.Expand | code/SVXsion.js:39-46 | Every copy made for one property carries that property's value. |
| SvxUtils.PrefixedInjective | code/SVXsion.js:44 | Different prefixes or properties give different prefixed names. |
| SvxUtils.AddPrefixKeeps | code/SVXsion.js:33-50 | For distinct properties without vendor names, every property and each of its prefixed copies ends with that property's own value. |
| SvxUtils.LaterCopyOverwrites | code/SVXsion.js:37-46 | When a style lists `webkit-transform` before `transform`, the copy made for `transform` overwrites the explicit vendor value. |
| SvxUtils.FormatDate | code/SVXsion.js:741-757 | Replaces the first `dd`, `MM`, `yyyy`, `HH`, `mm` and `ss` in turn; the format defaults to `dd.MM.yyyy`. Its results are stated by the lemmas beside it. |
| SvxUtils.DefaultFormat | code/SVXsion.js:741-757 | The default format gives two-digit day, then two-digit month counted from 1, then the year, separated by dots. |
| SvxUtils.RepeatedToken | code/SVXsion.js:750-756 | Only the first occurrence of a token is replaced: `dd dd` keeps its second `dd`. |
| SvxUtils.TimeTokensAbsent | code/SVXsion.js:753-756 | The time replacements leave a text without time tokens unchanged. |
| SvxUtils.Truncate | code/SVXsion.js:808-812 | A string within the limit is returned unchanged. A longer one becomes its first `maxLength` characters (none for a negative limit) followed by the suffix, `...` by default. |
| SvxUtils.TruncateIdempotent | code/SVXsion.js:808-812 | Truncating twice with the same arguments gives the same result as once. |
| SvxUtils.Capitalize | code/SVXsion.js:804-806 | The length is kept, the first character is upper-cased and every other character is lower-cased. |
| SvxUtils.CapitalizeIdempotent | code/SVXsion.js:804-806 | Capitalizing twice is the same as once. |
| SvxUtils.ToggleDisplay | code/SVXsion.js:219 | The result is `none` exactly when the display was not `none` (or the requested display is `none`). A hidden element gets the requested display. |
| SvxUtils.ToggleTwice | code/SVXsion.js:219 | Toggling twice restores a hidden element and normalises a shown one to the requested display. |
| SvxUtils.Toggle | code/SVXsion.js:217-222 | Every element's display is toggled in place. |
| PacPagination.PageWindow | Plugins/ComPAC/ComPAC.js:459-465 | For a valid page and count: 1 ≤ start ≤ current ≤ end ≤ total. The window holds min(maxVisible, total) pages. |
| PacPagination.Pages | Plugins/ComPAC/ComPAC.js:467-470 | The loop yields exactly the pages from start to end. |
| PacPagination.LayoutLinks | Plugins/ComPAC/ComPAC.js:475-507 | There is a previous link exactly when current > 1 and a next link exactly when current < total. Only the current page is active, and it is linked. |
| PacPagination.LayoutNumbers | Plugins/ComPAC/ComPAC.js:481-500 | The linked pages are page 1 when the window starts after it, then the window, then the last page when the window ends before it. |
| PacPagination.Layout | Plugins/ComPAC/ComPAC.js:475-507 | The template's links: previous, first page and gap, the window, gap and last page, next. Its properties are stated by the lemmas below. |
| PacPagination.FirstNumbers | Plugins/ComPAC/ComPAC.js:481-486 | Page 1 is linked exactly when start > 1. The gap marker appears exactly when start > 2, and then follows page 1. |
| PacPagination.LastNumbers | Plugins/ComPAC/ComPAC.js:495-500 | The last page is linked exactly when end < total. The gap marker appears exactly when end < total - 1, and then precedes the last page. |
| PacPagination.LayoutEllipses | Plugins/ComPAC/ComPAC.js:475-507 | In the whole layout, a gap marker comes right after the link to page 1 exactly when the window starts after page 2. One comes right before the link to the last page exactly when the window ends before the second-to-last page. |
| PacPagination.LeadingGap | Plugins/ComPAC/ComPAC.js:481-486 | For any five parts framing a window that holds the current page, a gap marker follows the link to page 1 exactly when the window starts after page 2. |
| PacPagination.TrailingGap | Plugins/ComPAC/ComPAC.js:495-500 | For the same parts, a gap marker precedes the link to the last page exactly when the window ends before the second-to-last page. |
| PacPagination.LayoutPages | Plugins/ComPAC/ComPAC.js:475-507 | The linked page numbers strictly increase, so none repeats, and run from 1 to the last page. |
| PacData.FilterArray | Plugins/ComPAC/ComPAC.js:54-56 | Keeps exactly the items whose property equals the value. |
| PacData.FilterData | Plugins/ComPAC/ComPAC.js:632-641 | Keeps exactly the items equal to every filter value that is not `undefined`. |
| PacData.FilterDataOrder | Plugins/ComPAC/ComPAC.js:632-641 | Filtering distributes over concatenation, so order is kept. Filters that are all `undefined` keep everything. |
| PacData.FilterDataSingle | Plugins/ComPAC/ComPAC.js:632-641 | A single defined filter is `filterArray`. |
| PacData.SearchData | Plugins/ComPAC/ComPAC.js:644-658 | An empty query returns the data. Otherwise it keeps exactly the items where some field, stringified and lower-cased, contains the lower-cased query. |
| PacData.SearchDataProperties | Plugins/ComPAC/ComPAC.js:644-658 | Search ignores the query's case and distributes over concatenation, so order is kept. |
| PacData.PaginateData | Plugins/ComPAC/ComPAC.js:661-665 | For page ≥ 1, the page is the data between `(page-1)·perPage` and `page·perPage`, clipped to the data, and holds at most `perPage` items. |
| PacData.PageIsChunk | Plugins/ComPAC/ComPAC.js:661-665 | Page i+1 is chunk i of `chunk(data, perPage)`. |
| PacData.PagesConcatenate | Plugins/ComPAC/ComPAC.js:661-665 | Pages 1 to ceil(n/perPage) concatenate to the data, and a page past the last one is empty. |
| PacData.PageAfterLast | Plugins/ComPAC/ComPAC.js:661-665 | A page number past ceil(n/perPage) gives an empty page. |
| PacData.SortBy | Plugins/ComPAC/ComPAC.js:59-65 | The sorted array is a permutation of the input. |
| PacData.SortBySorted | Plugins/ComPAC/ComPAC.js:59-65 | The sorted array is ordered by the numeric key, ascending or descending. |
| PacData.SortByStable | Plugins/ComPAC/ComPAC.js:59-65 | Items with equal keys keep their relative order, as the stable `Array.prototype.sort` does. |
| PacData.SortArray | Plugins/ComPAC/ComPAC.js:59-65 | Sorts the array in place and returns the same array. |
| PacDates.FormatDuration | Plugins/ComPAC/ComPAC.js:109-115 | `hh:mm:ss` with each field padded to two digits; the next two lemmas state what the fields hold. |
| PacDates.DurationFields | Plugins/ComPAC/ComPAC.js:109-115 | Minutes and seconds are below 60, and hrs·3600 + mins·60 + secs equals the input. |
| PacDates.DurationRoundTrip | Plugins/ComPAC/ComPAC.js:109-115 | Parsing the formatted `hh:mm:ss` gives back the seconds. |
| PacDates.DaysBetween | Plugins/ComPAC/ComPAC.js:103-106 | The result is the number of whole days in the absolute difference. |
| PacDates.IsWeekend | Plugins/ComPAC/ComPAC.js:118-121 | The day from `getDay()` is Sunday or Saturday; its week property is the next row. |
| PacDates.WeekdayAfter | Plugins/ComPAC/ComPAC.js:118-121 | The weekday d days after a given one is again a weekday number, 0 to 6. |
| PacDates.WeekendsPerWeek | Plugins/ComPAC/ComPAC.js:118-121 | Any seven consecutive days hold exactly two weekend days: one Saturday, and the Sunday right after it (counting round the week). |
| PacDates.CalculateAge | Plugins/ComPAC/ComPAC.js:124-134 | The age is the number of birthdays that have passed: the age-th anniversary is not after today, and the next one is. |
| PacWidgets.Cleared | Plugins/ComPAC/ComPAC.js:150-165 | Text-like controls lose their value, check boxes and radios are unchecked, and selects lose their selection. Every other type is unchanged. |
| PacWidgets.ClearedIdempotent | Plugins/ComPAC/ComPAC.js:150-165 | Clearing is idempotent. |
| PacWidgets.ClearForm | Plugins/ComPAC/ComPAC.js:143-168 | A missing form changes nothing. Otherwise every element is cleared in place. |
| PacWidgets.AccordionClick | Plugins/ComPAC/ComPAC.js:234-246 | The item flags after a click on one header; what they are is stated by the next two lemmas. |
| PacWidgets.AccordionClickEffect | Plugins/ComPAC/ComPAC.js:234-246 | The clicked item is open exactly when it was closed. In multiple mode the others are kept; in single mode at most one item is open afterwards. |
| PacWidgets.AccordionClickTwice | Plugins/ComPAC/ComPAC.js:234-246 | In multiple mode two clicks restore the state. In single mode, opening and closing the same item closes everything. |
| PacWidgets.Accordion.Click | Plugins/ComPAC/ComPAC.js:234-246 | Updates the item flags in place as the click function says. |
| PacWidgets.Tabs.Activate | Plugins/ComPAC/ComPAC.js:261-274 | Afterwards exactly the chosen tab is active. The only active panel is the one its target names, if any. |
| PacWidgets.Tabs.constructor | Plugins/ComPAC/ComPAC.js:251-276 | Set-up activates the first tab unless `activateFirst` is `false` or there are no tabs. |
| PacWidgets.TabsSingleActive | Plugins/ComPAC/ComPAC.js:261-274 | After an activation, one tab and at most one panel are active. |
| PacWidgets.LitCount | Plugins/ComPAC/ComPAC.js:339-345 | A rating lights exactly that many stars, and they form a prefix. |
| PacWidgets.StarRating.Click | Plugins/ComPAC/ComPAC.js:334-350 | The rating becomes index+1, the stars up to it are lit and the rest unlit, `onChange` gets the rating, and hover flags are untouched. |
| PacWidgets.StarRating.Enter | Plugins/ComPAC/ComPAC.js:354-362 | Hovering a star marks it and every star before it. |
| PacWidgets.StarRating.Leave | Plugins/ComPAC/ComPAC.js:364-366 | Leaving clears every hover flag. |
| PacTypewriter.Step | Plugins/ComPAC/ComPAC.js:572-603 | One call of `type` on the counter, the deleting flag and the shown text; its invariant is the next row. |
| PacTypewriter.StepValid | Plugins/ComPAC/ComPAC.js:572-603 | Every step keeps the text shown a prefix of the text. Typing shows `text[0..i+1)` and counts one more; deleting shortens the text shown by one. A stop happens only without `loop`, on the empty text. |
| PacTypewriter.CycleEnds | Plugins/ComPAC/ComPAC.js:572-603 | From the start, one cycle (one typing step per character plus one, then one deleting step per character, at least one) empties the text. Without `loop` the machine has stopped; with `loop` it is back at its start state. |
| PacTypewriter.TypingPhase | Plugins/ComPAC/ComPAC.js:585-597 | Typing reaches the whole text, with deleting switched on, after one step per character not yet shown, plus one. |
| PacTypewriter.DeletingPhase | Plugins/ComPAC/ComPAC.js:574-583 | Deleting reaches the empty text after as many steps as characters shown. |
| PacTypewriter.Typewriter.Type | Plugins/ComPAC/ComPAC.js:572-603 | One call of `type` updates the machine as the step function says. |
| StaCollections.BinarySearch | Plugins/StaMina/StaMina.js:369-380 | The result is -1 or an index holding the target. On an ascending array it is -1 exactly when the target is absent. |
| StaCollections.QuickSort | Plugins/StaMina/StaMina.js:382-394 | The result is an ascending permutation of the input. |
| StaCollections.Partition | Plugins/StaMina/StaMina.js:389-391 | The rest is split into the elements below the pivot and the others, as a permutation. |
| StaCollections.Merge | Plugins/StaMina/StaMina.js:406-417 | The result is a permutation of both inputs, and ascending when both are ascending. On ties the right element is taken first. |
| StaCollections.MergedAscending | Plugins/StaMina/StaMina.js:406-417 | Merging two ascending arrays gives an ascending array. |
| StaCollections.MergeSort | Plugins/StaMina/StaMina.js:396-404 | The result is an ascending permutation of the input. |
| StaCollections.FilterMap | Plugins/StaMina/StaMina.js:419-424 | The reduction keeps no more items than the input has. |
| StaCollections.FilterMapIsMapOfFilter | Plugins/StaMina/StaMina.js:419-424 | `filterMap` maps the filtered items, in order. |
| StaArrays.First | Plugins/StaMina/StaMina.js:181-183 | n defaults to 1, which gives the first element (or `undefined`). Otherwise it gives the first n elements, where a negative n drops that many from the end. |
| StaArrays.Last | Plugins/StaMina/StaMina.js:185-187 | n defaults to 1, which gives the last element. `n = 0` gives the whole array, n > 1 the last n elements, and a negative n drops the first -n elements. |
| StaArrays.FirstLastSplit | Plugins/StaMina/StaMina.js:181-187 | `first(k)` followed by `last(n-k)` rebuilds the array when neither count is 1 and the second is positive. |
| StaArrays.Chunk | Plugins/StaMina/StaMina.js:197-202 | Fails exactly for size 0 on a non-empty array, and gives no chunks for a size of 0 or below otherwise. |
| StaArrays.ChunkShape | Plugins/StaMina/StaMina.js:197-202 | For size ≥ 1: ceil(n/size) chunks. Every chunk but the last has exactly `size` elements, and the last has between 1 and `size`. |
| StaArrays.ChunkFlatten | Plugins/StaMina/StaMina.js:197-202 | The chunks concatenate to the input. |
| StaArrays.Uniq | Plugins/StaMina/StaMina.js:204-206 | The same elements as the input, each once. It also models ComPAC's `unique` (Plugins/ComPAC/ComPAC.js:68-70), which is the same expression. |
| StaArrays.UniqOrder | Plugins/StaMina/StaMina.js:204-206 | Elements keep the order of their first occurrences. |
| StaArrays.Pluck | Plugins/StaMina/StaMina.js:208-210 | The i-th result is the i-th item's property. |
| StaArrays.GroupBy | Plugins/StaMina/StaMina.js:212-219 | A group exists exactly for the names some item has, and holds exactly those items in input order. |
| StaArrays.GroupByPartition | Plugins/StaMina/StaMina.js:212-219 | Every item is in the group of its own name and in no other. |
| StaObjects.ObjFrom | Plugins/StaMina/StaMina.js:236-241 | A name maps to the last item with that name, and exists exactly when some item has it. |
| StaObjects.ObjFromEntry | Plugins/StaMina/StaMina.js:236-241 | The item stored under a name is an input item with that name. |
| StaObjects.ObjPick | Plugins/StaMina/StaMina.js:243-248 | Exactly the listed keys the object owns, with their values. |
| StaObjects.ObjOmit | Plugins/StaMina/StaMina.js:250-257 | Exactly the owned keys that are not listed, with their values. |
| StaObjects.PickOmitPartition | Plugins/StaMina/StaMina.js:243-257 | Pick and omit with the same keys split the object into two disjoint halves. |
| StaMath.Sum | Plugins/StaMina/StaMina.js:262-264 | The left fold of `+` from 0; its partners are the next two lemmas. |
| StaMath.SumAppend | Plugins/StaMina/StaMina.js:262-264 | The sum of a concatenation is the sum of the sums. |
| StaMath.SumBounds | Plugins/StaMina/StaMina.js:262-264 | Element bounds lo and hi bound the sum by n·lo and n·hi. |
| StaMath.Range | Plugins/StaMina/StaMina.js:278-284 | The result is start, start+step, … up to end: floor((end-start)/step)+1 values when start ≤ end, else none. The step defaults to 1. |
| StaMath.RangeNeverEnds | Plugins/StaMina/StaMina.js:278-284 | With step ≤ 0 and start ≤ end, the value after any number of steps is still at most end, so the loop never exits. |
| StaMath.Clamp | Plugins/StaMina/StaMina.js:286-288 | The result is within [min,max], and equals the value inside the bounds. When the bounds cross, it is `max`. |
| StaMath.ClampIdempotentMonotone | Plugins/StaMina/StaMina.js:286-288 | Clamping is idempotent and keeps order. |
| StaStrings.CamelCase | Plugins/StaMina/StaMina.js:297-301 | The result has no separator and is no longer than the input. |
| StaStrings.CamelCaseRun | Plugins/StaMina/StaMina.js:297-301 | A run of separators followed by a character becomes that character upper-cased. |
| StaStrings.CamelCaseWord | Plugins/StaMina/StaMina.js:297-301 | Text without separators passes through unchanged. |
| StaStrings.TrailingRun | Plugins/StaMina/StaMina.js:297-301 | A trailing run of separators disappears. |
| StaStrings.SnakeCase | Plugins/StaMina/StaMina.js:303-307 | The result has no whitespace and no upper-case letter. Text with neither whitespace nor a lower-upper pair only has its letters lower-cased. |
| StaStrings.KebabCase | Plugins/StaMina/StaMina.js:309-313 | The same as `snakeCase`, with `-`. |
| StaStrings.TrimRun | Plugins/StaMina/StaMina.js:304 | Trimming the start removes exactly a leading whitespace run. |
| StaStrings.SpacesToRun | Plugins/StaMina/StaMina.js:304 | A maximal whitespace run, before a non-space character or the end, becomes one separator. |
| StaStrings.SpacesToKeeps | Plugins/StaMina/StaMina.js:304 | A non-space character passes the first stage unchanged. |
| StaStrings.SpacesToWord | Plugins/StaMina/StaMina.js:304 | Text without whitespace passes the first stage unchanged. |
| StaStrings.SplitHumpsHump | Plugins/StaMina/StaMina.js:305 | A lower-case letter followed by an upper-case one gets the separator between them. |
| StaStrings.SplitHumpsKeeps | Plugins/StaMina/StaMina.js:305 | A character that does not start such a pair passes the second stage unchanged. |
| StaStrings.SplitHumpsNoHump | Plugins/StaMina/StaMina.js:305 | Text with no lower-upper pair passes the second stage unchanged. |
| StaStrings.DelimitLowersOthers | Plugins/StaMina/StaMina.js:303-313 | Text with neither whitespace nor a lower-upper pair comes out with each character lower-cased and nothing else changed. |
| StaStrings.SpacesToWords | Plugins/StaMina/StaMina.js:304 | Two words without whitespace, with a whitespace run between them, leave the first stage joined by one separator. |
| StaStrings.DelimitWords | Plugins/StaMina/StaMina.js:303-313 | Two lower-case words with a whitespace run between them come out joined by the separator. |
| StaStrings.WordsJoined | Plugins/StaMina/StaMina.js:303-313 | So `hello world` becomes `hello_world` in snake case and `hello-world` in kebab case. |
| StaStrings.CaseIdempotent | Plugins/StaMina/StaMina.js:303-313 | `snakeCase` and `kebabCase` are idempotent. |
| StaStrings.SplitJoin | Plugins/StaMina/StaMina.js:327-329 | Splitting and joining with the same separator gives back the string. |
| StaStrings.SplitPiecesFree | Plugins/StaMina/StaMina.js:327-329 | No piece of a split contains the separator. |
| StaStrings.ReplaceAll | Plugins/StaMina/StaMina.js:327-329 | `split` then `join`; its partners are `SplitJoin`, `SplitPiecesFree` and `ReplaceAllIdentity`. |
| StaStrings.ReplaceAllIdentity | Plugins/StaMina/StaMina.js:327-329 | Replacing a pattern by itself, or replacing an absent pattern, changes nothing. |
| StaFunctional.Pipe | Plugins/StaMina/StaMina.js:429-431 | Applies the functions first to last; its partner is the next lemma. |
| StaFunctional.Compose | Plugins/StaMina/StaMina.js:433-435 | Applies the functions last to first; its partner is `ComposeIsReversedPipe`. |
| StaFunctional.PipeAppend | Plugins/StaMina/StaMina.js:429-431 | Piping a concatenation pipes through the first part, then the second. |
| StaFunctional.ComposeIsReversedPipe | Plugins/StaMina/StaMina.js:429-435 | `compose` is `pipe` with the functions in reverse order. |

## Left out

- The DOM is not modelled: selectors, element creation, class and style setters, event binding, and the HTML text of templates. Handlers are methods called with the index of the element the event fired on.
- Network, storage and media are not modelled: `fetchData`, `get`/`post`/`upload`/`download`, `localStorage`, writing `document.cookie`, the clipboard, `FileReader`, the audio player and the router.
- Timers are not modelled (`requestAnimationFrame`, `setTimeout`, `setInterval`). Clock readings are parameters, and every step function takes the time as input.
- Randomness is not modelled: `random`, `uuid`, `randomItem`, `uniqueId`, `sample` and `shuffle`.
- IEEE-754 numbers are not modelled: animation values are exact reals with duration > 0, and NaN and Infinity do not occur.
- Locale, encoding and `Date` internals are not modelled. Case mapping is ASCII, `decodeURIComponent` is a parameter that may fail, and date fields (`getDate`, `getMonth`, `getDay`, …) are inputs.
- `curry` and `memoize` are not modelled (they rely on `fn.length` and on `JSON.stringify` keys), nor is the StaMina alias layer.
- StaMina's `formatDate` is not modelled, because it calls itself without bound.
- Tooltip placement geometry, dropdown and toggle-switch handlers, the parallax and hover effects, and every message text are not modelled.
- Object keys that fall through to `Object.prototype` are not modelled in `serializeForm`, `groupBy`, `objFrom` and `objOmit`, where keys are plain map keys. Only `pub.use` models the inherited names.
- The ordering of integer-like keys by `Object.keys` is not modelled. Rules and properties are given as sequences in insertion order.
- StaArrays.Uniq: equality is Dafny's, not SameValueZero, so `NaN` is not treated as equal to itself.
- PacData.SortArray requires every key to be a number. String or mixed comparisons with `<` are not modelled.
- SvxForms.ValidateForm requires distinct rule names (an object cannot hold two). A `match` selector with quotes, and the DOM error elements, are not modelled. The e-mail regular expression is a hand-written recogniser (`IsEmail`).
- PacDates.FormatDuration takes a natural number of seconds. Negative and fractional inputs are not modelled.
- PacDates.CalculateAge takes today's date as a parameter instead of reading the clock.
- PacWidgets.Tabs.Activate: a tab target that resolves to an element outside the container's panels is treated like a missing target.
- PacPagination.Layout models the links and their order, not the markup. `maxVisible` is an integer option in which 0 stands for absent.
- SvxCarousel: a carousel with no slides, and autoplay, are not modelled.
- SvxUtils.FormatDate: an invalid date (NaN fields) is not modelled.
- StaMath.Range: the arguments are integers, so fractional steps such as `range(0, 1, 0.25)` are not modelled. Inputs with step ≤ 0 and start ≤ end are excluded by its precondition: on them the source's loop never ends (Plugins/StaMina/StaMina.js:280), which `RangeNeverEnds` states.
- Every modelled use of the source's `Math.floor` and `%` takes non-negative operands, where they agree with Dafny's operators. Inputs that would give a negative operand are left out, as the `PacDates.FormatDuration` line above and the carousel line below say.
- SvxCarousel.Carousel.Next/Prev: `next` and `prev` are modelled only from an index in [0, n). After `goTo` with an index outside that range (code/SVXsion.js:1052-1057, 1133), the source goes on with JavaScript's truncating `%`, for example `(-2 + 1) % n == -1`, which hides every slide. That continuation is not modelled.

## Findings

| source | as written | input that shows it | evidently intended | confidence | as-written member | corrected member |
|---|---|---|---|---|---|---|
| code/SVXsion.js:563-575 | progress is `Math.min(elapsed / duration, 1)`, capped only above | first frame timestamp 90 for a start time of 100, a linear opacity fade from 0 to 1 over 400 ms: opacity -0.025 is written | progress clamped to [0, 1] | medium, not executed | SvxAnimation.EarlyFrameOvershoots | SvxAnimation.ClampedFrameInRange |
| code/SVXsion.js:65 | the duplicate guard reads `plugins[pluginName]` on a plain object, so inherited properties count | `use("toString", factory)` on a fresh registry: refused, and the factory is never called | only plugins registered under the name block | high, not executed | SvxPlugins.InheritedNameRefused | SvxPlugins.OwnGuardAcceptsFresh |
| code/SVXsion.js:624-662 | `fadeOut` and `slideUp` pass a completion function as a fifth argument to the four-parameter `animate` | `fadeOut` on an element with display `block`: display stays `block`, and the callback never runs | the completion function runs after the last frame | high, not executed | SvxEffects.HidingEffectsNeverHide | SvxEffects.CompletedHidingEffects |
