# power-tabs: a verified model of the tab and group bookkeeping

power-tabs is a browser add-on. It keeps a window's tabs in named groups shown in a sidebar. It can send a domain's pages to a chosen group, and it has a popup that switches between groups. This project models the bookkeeping core of the add-on in Dafny and proves what that code promises.

- **Sidebar.** `SidebarMain.GroupList` holds three things:
  - the ordered list of groups;
  - the tab cache, a map from tab id to `TabEntry` whose `index` copies the browser's tab position;
  - the active tab and the batch-move flag.

  Every browser event handler is one atomic method on that state. The ghost map `Indices()` (tab id to cached index) is tied to the functions of `TabOrder`. Those functions are the ±1 shift arithmetic for moved, created, removed/detached and attached tabs, plus the browser's own renumbering of its tab order. Lemmas show that a cache that is a permutation of 0..n-1 stays one and keeps agreeing with the browser. This is the invariant of the add-on's `verifyCache` debug check.
- **Groups and entries.** `SidebarGroups.Group` is an ordered member array plus a selection array: insertion after an anchor, removal, sorts, repositioning, bulk append, the click-selection state machine and the close-range commands. `SidebarGroups.TabEntry` is the per-tab record: field-merging update, detach, visibility and the menu-enabling predicates. Start-up placement (restoring stored groups and assigning each tab its home group) is stated as functions in `SidebarRestore`.
- **Background.** `Listen` holds the redirect decision for a page load, `encodeURL` and its percent-decoding round trip to UTF-8, the "never ask" toggle and the exempt-tab bookkeeping. `PageSettings` describes the stored per-domain records.
- **Popup.** `Popup` covers the group cache built from storage, tab placement, the latest and first-visible tab queries, the tab-count text, the domain-assignment checkbox and arrow-key navigation.
- **Helpers.** `Fuzzy` covers the subsequence test, regex escaping, best-match search and the two rankings. `Colour` covers the integer hex/RGB conversions. `Common` holds number printing, ASCII case folding, substring search and sequence splicing.

Browser reads (`tabs.query`, `sessions.getTabValue`, `storage.local.get`, …) are method parameters. Browser writes (`tabs.move`, `tabs.remove`, `sessions.setTabValue`, `storage.local.set`, `history.deleteUrl`, port messages, group saves) are returned as ordered `Effect` or `StorageEdit` lists. A JavaScript `TypeError` from a null dereference is an out-parameter `thrown`; the state the code reached before the throw is what the contract describes.

Quirks of the code are modelled as written, not fixed:
- `appendTabs` with a non-member anchor inserts at the front.
- `getRightBefore` falls back to the first member.
- `popSelected` cleans the selection before filtering.
- `setActive` throws when a tab is given and there was no previous active tab.
- `_removeTab` throws for an unknown id while the cache is non-empty.
- `onCreated` has no window check.
- `createTab` always asks for an active tab.
- Because `_exemptTabs` is written as a plain property but read as a `Map`, each exemption replaces the previous one and invalidation deletes nothing.
- `*` is encoded as lower-case `%2a`.

## Model

| member | source | states |
|---|---|---|
| Common.HexDigit | utils/colour.js:44 | a digit below 16 prints as a lower-case hex character whose value is that digit |
| Common.Hex | utils/colour.js:44 | `toString(16)` of a non-negative number is a non-empty string of lower-case hex digits |
| Common.HexRoundTrip | utils/colour.js:44 | reading back the printed hex digits gives the number |
| Common.HexLength | utils/colour.js:44 | a number below 16^k prints in at most k hex digits |
| Common.Decimal | popup/main.js:178 | for a safe integer, the decimal text is non-empty, all digits for n ≥ 0, and starts with '-' for a negative n |
| Common.DecimalDigitsRoundTrip | popup/main.js:178 | the base-ten digits of n read back to n |
| Common.DecimalRoundTrip | background/listen.js:62 | the text n.toString() gives for a safe integer, sign included, reads back to n, so the tabId parameter and the "N Tabs" count name the number itself |
| Common.Lower | sidebar/tab.js:277 | case folding maps exactly the ASCII capitals to their lower-case letters and leaves every other character alone |
| Common.SearchCI | sidebar/tab.js:277 | the case-insensitive search returns the first position where the needle occurs, and none iff it occurs nowhere |
| Common.SearchCIFrom | utils/fuzzy.js:42 | the search from a start position finds the first occurrence at or after it, and none iff there is none |
| Common.LexTotal | sidebar/group.js:514 | the string order that stands in for localeCompare relates any two strings |
| Common.LexTransitive | sidebar/group.js:514 | that string order is transitive |
| Common.IndexOf | sidebar/group.js:490 | indexOf is -1 iff the element is absent, and otherwise is its first position |
| Common.InsertAt | sidebar/group.js:308 | splicing one element in at i keeps the prefix and the suffix around it |
| Common.InsertAtMultiset | sidebar/group.js:308 | an insertion adds exactly that element to the multiset |
| Common.RemoveAt | sidebar/group.js:492 | splicing out position i keeps the prefix and shifts the suffix down by one |
| Common.RemoveAtMultiset | sidebar/group.js:492 | a removal takes exactly the removed element out of the multiset |
| Colour.TrimStart | utils/colour.js:3-5 | parseInt's leading trim: the result is a suffix of the input, everything cut off is ECMAScript white space or a line terminator, and what is left does not start with one |
| Colour.HexPrefix | utils/colour.js:3-5 | parseInt reads the longest prefix of hex digits |
| Colour.ParseInt16 | utils/colour.js:3-5 | parseInt(s, 16): NaN for blank text or text whose first non-blank character is not a hex digit or sign; the hex value for trimmed all-hex text; a negative result only after a leading '-' |
| Colour.HexToInt | utils/colour.js:1-6 | a non-empty all-hex string, with or without one leading '#', reads as its hex value |
| Colour.ToInt32 | utils/colour.js:10-12 | the shift operators see a value in the signed 32-bit range; non-negative values below 2^31 pass unchanged |
| Colour.IntToRGB | utils/colour.js:8-14 | each of r, g, b lies in 0..255 |
| Colour.IntToRGBRecombines | utils/colour.js:8-14 | for 0 ≤ n < 2^24, r·65536 + g·256 + b = n |
| Colour.HexToRgb | utils/colour.js:16-19 | each channel lies in 0..255, and for '#' followed by at most six-digit hex the channels recombine to that hex value |
| Colour.HexToIntIgnoresHash | utils/colour.js:1-6 | hexToInt ignores one leading '#' |
| Colour.PadStart | utils/colour.js:44 | padStart reaches the requested width with the fill on the left, and the original text stays as the suffix |
| Colour.HexValueLeadingZeros | utils/colour.js:44 | leading '0' padding does not change a hex value |
| Colour.ParseHexDigits | utils/colour.js:3-5 | parseInt(s, 16) of a non-empty all-hex string is its hex value |
| Colour.ColourDigits | utils/colour.js:44-49 | below 2^24 the padded hex text is six hex digits that read back as n |
| Colour.ColourString | utils/colour.js:44-49 | the colour text is '#' followed by at least six hex digits |
| Colour.ColourStringRoundTrip | utils/colour.js:41-50 | for n < 2^24, '#' + hex padded to 6 has length 7 and hexToInt gives back n |
| PageSettings.PageKey | background/listen.js:33 | the storage key is "page:" followed by the host name, so the host name can be read back from it |
| PageSettings.PageKeyInjective | background/listen.js:33 | different host names never share a storage key |
| PageSettings.Apply | background/listen.js:71-82 | storage.local edits applied in order: a key no edit names keeps its record or its absence, and a named key ends as its last edit left it (set to that record, or removed) |
| Listen.UpperHexDigit | background/listen.js:7 | encodeURIComponent's digit character has the digit's value |
| Listen.Utf8 | background/listen.js:7 | a character encodes to 1..4 bytes, and ASCII to itself |
| Listen.Triples | background/listen.js:7 | escaped bytes become three characters each, all '%' or hex digits |
| Listen.EncodeURIComponent | background/listen.js:7 | encodeURIComponent never shortens its input, writes only unescaped characters and '%', and leaves text made only of unescaped characters as it is |
| Listen.ReplaceAppend | background/listen.js:7-10 | the replacement of `!'()*` distributes over concatenation |
| Listen.ReplaceNone | background/listen.js:7-10 | text without those five characters is left unchanged |
| Listen.ReplaceTriples | background/listen.js:7-10 | the replacement never touches percent triples |
| Listen.EncodeURLChars | background/listen.js:6-11 | encodeURL is the concatenation of a per-character encoding |
| Listen.EncodeURL | background/listen.js:6-11 | a URL made only of RFC 3986 unreserved characters comes out unchanged; the per-character form, the percent-encoded shape and the decoding round trip are the lemmas EncodeURLChars, EncodeURLIsPercentEncoded and EncodeURLRoundTrip |
| Listen.TwoHexDigits | background/listen.js:8 | the code of each replaced character prints as exactly two hex digits |
| Listen.EncodedCharEncoded | background/listen.js:6-11 | each character encodes to unreserved characters or %-hex triples |
| Listen.EncodeURLIsPercentEncoded | background/listen.js:6-11 | the output is RFC 3986 unreserved characters and %-hex triples only, with none of `!'()*` left |
| Listen.PercentEncodedNoReplaced | background/listen.js:7 | percent-encoded text contains neither `!'()*` nor '&' |
| Listen.TriplesBytes | background/listen.js:7 | decoding the percent triples gives back the bytes |
| Listen.ReplacedBytes | background/listen.js:8-9 | the lower-case triple written for a replaced character (`*` as %2a) still decodes to its code |
| Listen.EncodedCharBytes | background/listen.js:6-11 | one character's encoding decodes to its UTF-8 bytes |
| Listen.EncodeURLRoundTrip | background/listen.js:6-11 | percent-decoding encodeURL(url) gives exactly the UTF-8 bytes of url |
| Listen.RedirectUrlParameter | background/listen.js:61-62 | the `url` parameter of the confirmation URL, read up to the next '&', decodes to url |
| Listen.RedirectUrlSplit | background/listen.js:62 | the redirect URL is the page URL, then "?url=", the encoded url, then the groupId and tabId parameters |
| Listen.RedirectUrl | background/listen.js:61-62 | the confirmation URL; its layout and the decodable `url` parameter are stated by RedirectUrlSplit and RedirectUrlParameter |
| Listen.ToggleNeverAsk | background/listen.js:71-82 | no edit when the domain has no record; otherwise only that record's neverAsk changes, to the new value |
| Listen.RedirectEffects | background/listen.js:84-91 | a redirect is two effects: the tab update to the redirect URL, then the history deletion of the original URL, which runs in the update's callback |
| Listen.Background.constructor | background/listen.js:3-4 | the background starts with no exemptions and no port |
| Listen.Background.ExemptTab | background/listen.js:13-20 | after exemptTab(t, d), isExempt(t, d) holds, except that it throws iff the Map has an entry for t but the property does not; the exempt set of t becomes {d} |
| Listen.Background.IsExempt | background/listen.js:22-25 | a tab is exempt for a domain iff the Map property for the tab holds that domain; ExemptTab and OnMessage state how it changes |
| Listen.Background.OnPortMessage | background/listen.js:103-107 | invalidation deletes from the Map only, so every exemption in force stays in force |
| Listen.Background.PortConnected | background/listen.js:109-112 | a connected port is recorded |
| Listen.Background.OnBeforeRequest | background/listen.js:27-69 | no redirect for a subframe or tab -1; otherwise a redirect iff the tab is not exempt, the domain has a record without neverAsk, the tab has a group id, and that id differs from the record's group; the target is the confirmation URL |
| Listen.Background.MoveTabToGroup | background/listen.js:93-101 | sets the tab's group, updates the tab to the redirect URL, then posts to the sidebar; the history deletion, which waits for the update's callback, comes last, even when the post throws; it throws iff no port is connected |
| Listen.Background.OnMessage | background/listen.js:114-131 | neverAsk messages toggle the record; redirectTab exempts exactly the redirect's hostname for the tab when asked, leaves every other tab's exemptions as they were, and routes through moveTabToGroup iff a group id is given |
| Popup.IconUrl | popup/main.js:29-43 | the icon is the favicon unless it is missing, empty or a chrome:// URL, and is never a chrome:// URL |
| Popup.Tab.constructor | popup/main.js:46-52 | a new popup tab holds its data and starts hidden |
| Popup.Tab.Hide | popup/main.js:88-93 | afterwards the tab is hidden, and it is detached from view iff it was shown |
| Popup.Tab.Show | popup/main.js:95-100 | afterwards the tab is shown, and it is attached iff it was hidden |
| Popup.ReduceLatest | popup/main.js:154-156 | the reduce picks the earliest of the maximal lastAccessed values |
| Popup.FirstVisible | popup/main.js:161 | finds the first tab that is not hidden, or -1 when all are hidden |
| Popup.GroupUuid | popup/main.js:123 | a group keeps a truthy stored uuid, otherwise gets the generated one |
| Popup.GroupColour | popup/main.js:127 | a group keeps a truthy stored colour, otherwise gets black |
| Popup.TabCountText | popup/main.js:173-180 | the count text is the number followed by " Tab" for one, " Tabs" otherwise |
| Popup.Group.constructor | popup/main.js:122-129 | a new popup group takes its uuid, name and colour by those rules and has no tabs |
| Popup.Group.AddTab | popup/main.js:131-133 | appends one fresh hidden tab holding the data |
| Popup.Group.GetLatestTab | popup/main.js:145-158 | null iff the group is empty, otherwise a tab with the latest lastAccessed, the earliest one on ties |
| Popup.Group.GetFirstVisibleTab | popup/main.js:160-163 | the first tab that is not hidden, or null iff every tab is hidden |
| Popup.Group.SetTabCount | popup/main.js:173-180 | "1 Tab" for one, "N Tabs" otherwise |
| Popup.LastIndexOf | popup/main.js:316 | the last position of a key, or -1 iff absent |
| Popup.InsertionOrder | popup/main.js:316 | a map's key order holds each key once, exactly the keys inserted |
| Popup.CacheOfStep | popup/main.js:314-317 | inserting one stored group keeps the cache equal to "last record per uuid wins, in first-insertion order" |
| Popup.PlacedStep | popup/main.js:320-325 | placing one more tab keeps every group's contents equal to the tabs whose stored id names it, in tab order |
| Popup.LastActive | popup/main.js:326-329 | the current tab is the last active one |
| Popup.Lookup | popup/main.js:322 | a tab's group is found iff its stored id is a key of the cache |
| Popup.FlattenDatas | popup/main.js:334 | the flat tab list is the group contents concatenated in cache order |
| Popup.BuildCache | popup/main.js:314-317 | the cache maps each stored uuid to a fresh empty group built from its last record, in first-insertion order |
| Popup.AddToGroup | popup/main.js:322-325 | adding a tab appends it to exactly one group's contents |
| Popup.AddTabs | popup/main.js:320-330 | each tab joins the group its stored id names, tabs with unknown ids are skipped, and the current tab and group come from the last active tab |
| Popup.Prepare | popup/main.js:307-335 | the cache, key order, current tab and group, and the flat tab list are built by those rules |
| Popup.OnNewGroup | popup/main.js:343-351 | a new group is added under the reply's uuid as given (its own uuid when that is non-empty), other keys are unchanged, and the order gains the key only if it is new |
| Popup.TabAssignment | popup/main.js:357-401 | the box is enabled iff the page has a host name, is not a new-tab page and the tab has a group; it is ticked iff that domain's record names the group; a missing group fails, leaving the box disabled and clear |
| Popup.DomainAssignment | popup/main.js:414-435 | checking points the domain at this group and keeps neverAsk; unchecking removes the record only when it names this group |
| Popup.AssignmentShown | popup/main.js:390-435 | after an assignment the checkbox shows exactly what was chosen, and no other domain's record changes |
| Popup.ArrowStep | popup/main.js:474-478 | the arrow keys move by ±1 and stay put at either end; with no selection, ArrowDown goes to the first element |
| Popup.ArrowRoundTrip | popup/main.js:474-478 | among distinct elements, a step down and then up (or up and then down) returns to where it started |
| Fuzzy.EscapeRegex | utils/fuzzy.js:1-4 | text free of the 16 special characters is left unchanged |
| Fuzzy.EscapeRegexIsLiteral | utils/fuzzy.js:1-4 | reading the escaped text as a regex literal gives back the input |
| Fuzzy.SubsequenceIff | utils/fuzzy.js:124-143 | the recursive subsequence test holds iff there is an increasing embedding of the needle |
| Fuzzy.SubsequenceNotLonger | utils/fuzzy.js:127-129 | a needle longer than the haystack is never found |
| Fuzzy.SubsequenceSameLength | utils/fuzzy.js:130-132 | with equal lengths, the test is string equality |
| Fuzzy.FuzzySearch | utils/fuzzy.js:124-143 | the labelled two-index loop answers true iff the needle is a subsequence |
| Fuzzy.LazyEnd | utils/fuzzy.js:36 | a lazy match ends on a character equal (ignoring case) to the query's last one |
| Fuzzy.MatchAt | utils/fuzzy.js:36-37 | a match at p starts and ends on the query's first and last characters and lies inside the text |
| Fuzzy.FindBestMatch | utils/fuzzy.js:6-31 | null iff no start position matches, otherwise the shortest match with the earliest start on ties |
| Fuzzy.FirstMatch | utils/fuzzy.js:87-90 | the first start position at or after `from` that matches, or none |
| Fuzzy.RanksTotal | utils/fuzzy.js:65-80 | the ranking relates any two suggestions |
| Fuzzy.RanksTransitive | utils/fuzzy.js:65-80 | the ranking is transitive |
| Fuzzy.SortSuggestionsSpec | utils/fuzzy.js:82 | the sort output is ranked and a permutation of its input |
| Fuzzy.SortSuggestionsItems | utils/fuzzy.js:82 | sorting keeps the multiset of items |
| Fuzzy.SortSuggestionsStable | utils/fuzzy.js:82 | the sort is stable: suggestions ranked equal keep their input order |
| Fuzzy.InsertTied | utils/fuzzy.js:82 | one insertion step puts the new suggestion after those ranked equal to it |
| Fuzzy.TabSuggestions | utils/fuzzy.js:40-63 | exactly the matching tabs, in tab order: a host-name hit counts as a URL match, and a title match is used only without a URL hit |
| Fuzzy.FuzzyMatchTabObjects | utils/fuzzy.js:34-83 | the result is a permutation of the matching tabs, ordered by the tab ranking (title matches first); the ranking is SortSuggestions of the suggestions in tab order, so suggestions that tie on every key keep tab order |
| Fuzzy.CollectItems | utils/fuzzy.js:111-115 | the items are read off the ranked suggestions in order |
| Fuzzy.FinderSuggestions | utils/fuzzy.js:88-98 | exactly the matching items, each with its first match |
| Fuzzy.FuzzyFinder | utils/fuzzy.js:85-117 | the result is a permutation of the matching items, ordered by match length, then start, then key; the ranking is SortSuggestions of the suggestions in collection order, so full ties keep collection order |
| TabOrder.MatchesIsPermutation | sidebar/main.js:612-623 | a cache that agrees with the browser's order is a permutation of 0..n-1 |
| TabOrder.MoveShiftIsShift | sidebar/main.js:350-366 | the move shift is a ±1 shift over the half-open range between the two positions |
| TabOrder.CreateShiftIsShift | sidebar/main.js:400-404 | the creation shift adds one to every index at or above the new one |
| TabOrder.MoveShift | sidebar/main.js:350-366 | the move loop keeps the cached ids; which indices it shifts is stated by MoveShiftIsShift and MovedSpec |
| TabOrder.Moved | sidebar/main.js:350-368 | onMoved's index work, stated by MovedSpec, MovedKeepsPermutation and MovedMatchesHost |
| TabOrder.CreateShift | sidebar/main.js:400-404 | the creation loop keeps the cached ids; which indices it shifts is stated by CreateShiftIsShift and CreatedSpec |
| TabOrder.Created | sidebar/main.js:400-407 | onCreated's index work, stated by CreatedSpec, CreatedKeepsPermutation and CreatedMatchesHost |
| TabOrder.MovedSpec | sidebar/main.js:350-368 | after onMoved the moved tab is cached at `to`; every other tab below both positions or above both keeps its index; a move right takes one off each index in [from, to], a move left adds one to each in [to, from) |
| TabOrder.CreatedSpec | sidebar/main.js:400-407 | after onCreated the new tab is cached at its index; every other tab below it keeps its index and every one at or above it moves up by one |
| TabOrder.CreatedIsShift | sidebar/main.js:400-407 | onCreated's index work is the shared shift from the new index, then the new entry |
| TabOrder.Removed | sidebar/main.js:427-440 | a removal drops exactly the removed id from the cache |
| TabOrder.Shift | sidebar/main.js:362-366 | a shift keeps the cached ids and leaves every index below the range alone |
| TabOrder.RemovedIsShift | sidebar/main.js:432-439 | removal is deletion followed by -1 on every index at or above the removed one |
| TabOrder.Attached | sidebar/main.js:458-461 | attaching caches the tab at its new index and leaves every other index alone |
| TabOrder.AttachedLosesMatch | sidebar/main.js:452-471 | a cache {1:0} that agrees with order [1] stops agreeing, and stops being a permutation, once tab 2 is attached at 0 |
| TabOrder.MovedKeepsPermutation | sidebar/main.js:350-368 | a move keeps a permutation: tabs strictly between the positions shift one step toward `from`, the moved tab gets `to`, and all others are unchanged |
| TabOrder.CreatedKeepsPermutation | sidebar/main.js:399-407 | a creation turns a permutation of 0..n-1 into one of 0..n |
| TabOrder.RemovedKeepsPermutation | sidebar/main.js:427-440 | a removal turns a permutation of 0..n-1 into one of 0..n-2 |
| TabOrder.MovedMatchesHost | sidebar/main.js:349-368 | the move arithmetic agrees with the browser's own reordering |
| TabOrder.CreatedMatchesHost | sidebar/main.js:399-407 | the creation arithmetic agrees with the browser's insertion |
| TabOrder.RemovedMatchesHost | sidebar/main.js:427-440 | the removal arithmetic agrees with the browser's removal |
| SidebarRestore.HostIndex | sidebar/main.js:165-170 | the index map built from a query knows every reported tab |
| SidebarRestore.HostIndexMatches | sidebar/main.js:612-623 | the indices the browser reports for a window agree with its order |
| SidebarRestore.FirstMissing | sidebar/main.js:166-170 | resync stops at the first reported tab that is not cached |
| SidebarRestore.ResyncRestoresMatch | sidebar/main.js:165-171 | after a full resync over the cached tabs, the cache agrees with the browser again, whatever it held before |
| SidebarRestore.LastWithUuid | sidebar/main.js:121-126 | the lookup keeps the last stored record of each uuid |
| SidebarRestore.FirstActiveRecord | sidebar/main.js:128 | the first stored group marked active, or -1 |
| SidebarRestore.FindActive | sidebar/main.js:128 | find returns an active group, and none before it is active |
| SidebarRestore.FindActiveIsFirst | sidebar/main.js:121-128 | the old active group is the group restored from the first active record |
| SidebarRestore.HomeOf | sidebar/main.js:138-155 | a tab with a stored id goes to that group when it exists (a dangling id drops the tab); a tab without one goes to the old active group |
| SidebarRestore.JoinerIdsIff | sidebar/main.js:130-156 | a group receives exactly the tabs whose home it is |
| SidebarRestore.JoinersDisjoint | sidebar/main.js:130-156 | no tab joins two groups |
| SidebarRestore.GhostWrites | sidebar/main.js:149-155 | only tabs without a stored id get a group-id write, always naming the old active group |
| SidebarRestore.LastActive | sidebar/main.js:130-134 | the active tab is the last one reported active |
| SidebarRestore.NewRestored | sidebar/main.js:122-123 | a restored group carries its record's name, uuid and flags, and no tabs |
| SidebarRestore.RestoreGroups | sidebar/main.js:121-126 | one fresh distinct group per record, with the lookup keeping the last group per uuid |
| SidebarRestore.RestoreList | sidebar/main.js:121-128 | the restored list, the lookup and the old active group are built by those rules |
| SidebarRestore.JoinHome | sidebar/main.js:138-155 | the tab is appended to its home group only, and gets a group-id write iff it had no stored id and there is an active group |
| SidebarRestore.SortAll | sidebar/main.js:159-162 | each group ends sorted by index |
| SidebarGroups.FullChange | sidebar/main.js:167-169 | resync carries the reported index, title and URL |
| SidebarGroups.FindId | sidebar/group.js:462 | the position of the first member with the id, or -1 iff none has it |
| SidebarGroups.Without | sidebar/group.js:489-493 | removal takes out the first occurrence only when present, and otherwise leaves the list unchanged |
| SidebarGroups.FirstAtOrAbove | sidebar/group.js:137-142 | the first member whose index is at least x; all members before it are below x |
| SidebarGroups.AfterSlot | sidebar/group.js:295-311 | the insertion slot is just after the anchor when it is a member |
| SidebarGroups.FirstSlot | sidebar/group.js:137-142 | the scan finds the first member at or above x |
| SidebarGroups.ScanForMove | sidebar/group.js:410-423 | the scan finds the tab's position and the first member at or above the new position |
| SidebarGroups.ActiveMember | sidebar/group.js:205 | the first active member, or null iff none is active |
| SidebarGroups.CleanSelection | sidebar/group.js:202-209 | a cleaned selection holds at most the active member |
| SidebarGroups.TakeIds | sidebar/group.js:161-176 | takes exactly the members whose id is selected, in group order |
| SidebarGroups.DropIds | sidebar/group.js:161-176 | keeps exactly the members whose id is not selected, in group order |
| SidebarGroups.TakeDropPermutation | sidebar/group.js:161-176 | taken members plus kept members are a permutation of the old list |
| SidebarGroups.Partition | sidebar/group.js:167-174 | the filtering loop splits the members into taken and kept |
| SidebarGroups.MoveMember | sidebar/group.js:436 | moving a member keeps the multiset, leaves the list alone for a non-member, and puts the member at the clamped slot |
| SidebarGroups.Reposition | sidebar/group.js:409-436 | throws iff the group is empty (the `tabs[-1]` read), and otherwise moves the member to the first slot at or above the new position |
| SidebarGroups.Moves | sidebar/group.js:528-533 | one tabs.move per member, to the matching old position |
| SidebarGroups.AssignPositions | sidebar/group.js:528-533 | after the loop, the member at position k has the k-th old index |
| SidebarGroups.SkipAt | sidebar/group.js:465-473 | "close others" skips exactly the given position |
| SidebarGroups.LeTotal | sidebar/group.js:510-519 | the sort comparator relates any two members |
| SidebarGroups.SortBy | sidebar/group.js:503 | the sort output has the same length, drawn from the members |
| SidebarGroups.SortByPermutes | sidebar/group.js:503 | the sort is a permutation |
| SidebarGroups.SortBySorted | sidebar/group.js:503 | the sort output is ordered by the key |
| SidebarGroups.SortByStable | sidebar/group.js:503 | the sort is stable: members the comparator ties keep their relative order |
| SidebarGroups.InsertSortedTied | sidebar/group.js:503 | one insertion step puts the new member after the members tied with it |
| SidebarGroups.InsertFreshKeepsDistinct | sidebar/group.js:293-314 | inserting a tab that is not a member keeps every member listed once |
| SidebarGroups.WithoutKeepsDistinct | sidebar/group.js:489-500 | removing a tab keeps every member listed once |
| SidebarGroups.SubmultisetKeepsDistinct | sidebar/group.js:406-448 | a reordering of distinct members, or the members with some left out, is distinct |
| SidebarGroups.SortKeepsDistinct | sidebar/group.js:387-404 | sorting a list whose members are listed once keeps each listed once and keeps an outside entry outside |
| SidebarGroups.Positions | sidebar/group.js:521 | the list of the members' indices, in member order |
| SidebarGroups.CloseAll | sidebar/group.js:465-487 | every tab in the run is marked closing and gets one close effect |
| SidebarGroups.ActiveOnesSpec | sidebar/group.js:342-344 | the active entries are exactly the run's active members |
| SidebarGroups.RangeAdditionsSpec | sidebar/group.js:211-223 | the range adds each member in the range that is not yet selected, once, and drops nothing |
| SidebarGroups.ShiftAnchor | sidebar/group.js:266-272 | the shift anchor is the first selected member's position, and -1 iff that member has left the group |
| SidebarGroups.ActiveIndex | sidebar/group.js:268 | the position of the first active member, or -1 |
| SidebarGroups.RankRun | sidebar/group.js:365-375 | the canonical-order loop gives each id its position in the combined list |
| SidebarGroups.RanksArePositions | sidebar/group.js:358-378 | in a list of distinct ids, each id ranks at its own position |
| SidebarGroups.TabEntry.constructor | sidebar/tab.js:2-18 | a new entry copies the tab's fields, is visible, has no group and is not closing |
| SidebarGroups.TabEntry.TabIndex | sidebar/tab.js:101-106 | -1 without a group, otherwise the tab's position in its group (-1 if not a member) |
| SidebarGroups.TabEntry.CanCloseAbove | sidebar/tab.js:172 | "Close Tabs Above" is enabled iff the tab is a member and not first |
| SidebarGroups.TabEntry.CanCloseBelow | sidebar/tab.js:178 | "Close Tabs Below" is disabled iff the group is empty or the tab is its last member |
| SidebarGroups.TabEntry.CanCloseOthers | sidebar/tab.js:184 | "Close Other Tabs" is enabled iff the group has at least two tabs |
| SidebarGroups.TabEntry.CanMoveTo | sidebar/tab.js:162 | "Move To" a target is enabled iff it is a different group |
| SidebarGroups.TabEntry.Close | sidebar/tab.js:229-232 | marks the tab closing and asks the browser to remove it |
| SidebarGroups.TabEntry.Hide | sidebar/tab.js:246-249 | the tab becomes invisible and nothing else changes |
| SidebarGroups.TabEntry.Show | sidebar/tab.js:251-254 | the tab becomes visible and nothing else changes |
| SidebarGroups.TabEntry.ToggleVisibility | sidebar/tab.js:256-258 | visible == v afterwards |
| SidebarGroups.TabEntry.MatchesTitle | sidebar/tab.js:276-278 | true iff the text occurs in the title, ignoring ASCII case |
| SidebarGroups.TabEntry.ShouldHide | sidebar/tab.js:280-283 | true iff the query occurs in the title or the URL, ignoring ASCII case |
| SidebarGroups.TabEntry.Update | sidebar/tab.js:289-328 | each field present in the change is assigned, and every absent field is unchanged |
| SidebarGroups.TabEntry.UpdateFlags | sidebar/tab.js:294-323 | the same rule for the pinned, audible, muted and discarded flags |
| SidebarGroups.TabEntry.UpdatePage | sidebar/tab.js:302-327 | the same rule for the title, URL and index |
| SidebarGroups.TabEntry.UpdateTitle | sidebar/tab.js:336-339 | the title takes the new value |
| SidebarGroups.TabEntry.ToggleActive | sidebar/tab.js:260-268 | the tab and its group take the flag; the tab joins the group's selection when activated and leaves it when deactivated |
| SidebarGroups.TabEntry.Detach | sidebar/tab.js:330-334 | the tab leaves its group's members (nothing happens without a group) but keeps its group field |
| SidebarGroups.TabEntry.AttachToNewGroup | sidebar/tab.js:238-242 | the tab leaves its old group and is inserted into the target right after the member getRightBefore picks for its cached index (as the only member of an empty target); the target gains exactly this tab and its stored group id is rewritten |
| SidebarGroups.Group.AddNearIndex | sidebar/tab.js:240-241 | the entry is inserted right after the member getRightBefore picks for its index, or alone into an empty group, and the members gain exactly the entry |
| SidebarGroups.NearSlot | sidebar/tab.js:240-241 | the slot attachToNewGroup inserts at: right after the member getRightBefore picks, within the list, or the front of an empty group |
| SidebarGroups.Group.FromData | sidebar/group.js:4-23 | a group rebuilt from storage takes the record's name, uuid and flags, with no members, so no member is listed twice |
| SidebarGroups.Group.Named | sidebar/group.js:4-23 | a new group is open, inactive and empty, so no member is listed twice |
| SidebarGroups.Group.TabIndex | sidebar/group.js:461-463 | the position of the first member with the id, or -1 iff none |
| SidebarGroups.Group.GetRightBefore | sidebar/group.js:136-145 | null iff the group is empty; otherwise the member before the first one at or above the index, falling back to the first or last member |
| SidebarGroups.Group.SortSelected | sidebar/group.js:147-149 | the selection becomes a sorted permutation of itself |
| SidebarGroups.Group.PopSelected | sidebar/group.js:161-176 | returns exactly the selected members in group order, keeps the rest in order, both together a permutation of the old list; the selection is cleaned first |
| SidebarGroups.Group.AddSelected | sidebar/group.js:178-181 | appends the tab to the selection |
| SidebarGroups.Group.RemoveSelected | sidebar/group.js:183-189 | removes the tab from the selection if present |
| SidebarGroups.Group.ClearSelected | sidebar/group.js:195-200 | the selection becomes empty |
| SidebarGroups.Group.CleanSelected | sidebar/group.js:202-209 | the selection becomes just the active member, if any |
| SidebarGroups.Group.SelectRange | sidebar/group.js:211-223 | adds each unselected member in begin..min(end, len-1) without duplicates and drops none |
| SidebarGroups.Group.OnClick | sidebar/group.js:225-291 | only the selection can change; nothing for an inactive group or an absent or closing tab; throws iff a shift click's anchor left the group (the selection is kept for ctrl+shift and emptied for shift); ctrl+shift with no selection does nothing; otherwise the selection ends sorted and holds, as a multiset: the clicked tab alone (plain), the old selection with the tab toggled (ctrl), the old selection plus the unselected members between anchor and tab (ctrl+shift), or exactly the members between anchor and tab (shift) |
| SidebarGroups.Group.CtrlShiftClickSorted | sidebar/group.js:244-256 | throws iff the anchor left the group; otherwise the selection ends sorted and, as a multiset, is the old selection plus the range additions |
| SidebarGroups.Group.CtrlClickSorted | sidebar/group.js:257-264 | the selection ends sorted and, as a multiset, is the old one with the clicked tab toggled |
| SidebarGroups.Group.ShiftClickSorted | sidebar/group.js:265-284 | throws iff the anchor left the group, emptying the selection; otherwise it ends sorted and, as a multiset, is the range between anchor and tab |
| SidebarGroups.Group.PlainClickSorted | sidebar/group.js:285-290 | the selection becomes the clicked tab alone |
| SidebarGroups.CtrlShiftSelection | sidebar/group.js:244-256 | the old selection stays as the prefix, and every member between the anchor and the clicked position has its id selected |
| SidebarGroups.Group.CtrlShiftClick | sidebar/group.js:244-256 | adds the range between the anchor and the clicked tab to the selection |
| SidebarGroups.Group.CtrlClick | sidebar/group.js:257-264 | toggles the clicked tab in the selection |
| SidebarGroups.Group.ShiftClick | sidebar/group.js:265-284 | replaces the selection with the range between the anchor and the clicked tab |
| SidebarGroups.Group.SelectBetween | sidebar/group.js:274-284 | the selection becomes that range |
| SidebarGroups.Group.AddTab | sidebar/group.js:293-314 | appends when the anchor is absent or not a member, otherwise inserts right after it; others keep their order and the tab's group becomes this one; adding a tab that is not yet a member keeps every member listed once |
| SidebarGroups.Group.LoadTab | sidebar/group.js:316-320 | appends the tab and makes this its group; a tab that is not yet a member keeps every member listed once |
| SidebarGroups.Group.AppendTabs | sidebar/group.js:322-356 | appends without an anchor; otherwise splices after indexOf(anchor) (the front for a non-member), selects the active entries, and issues the batched move and resync; throws iff the group is still empty, after opening the batch and before closing it |
| SidebarGroups.Group.InsertBlock | sidebar/group.js:332-355 | the entries are spliced in after the anchor and the active ones selected; throws iff the group is still empty, before the move, the end of the batch and the resync |
| SidebarGroups.BlockAfter | sidebar/group.js:331-339 | the block splice keeps the length sum, keeps the prefix up to the anchor, and puts the block in front when the anchor is not a member |
| SidebarGroups.Group.LoadTabs | sidebar/group.js:323-329 | appends the entries and writes their group ids |
| SidebarGroups.Group.InsertTabs | sidebar/group.js:337-350 | splices the entries in after the anchor position and selects the active ones |
| SidebarGroups.Group.InsertOne | sidebar/group.js:339-349 | inserts one entry and selects it if active |
| SidebarGroups.Group.CanonicalOrder | sidebar/group.js:358-378 | the canonical order ranks each id by its position in the combined list |
| SidebarGroups.Group.AttachTab | sidebar/group.js:387-404 | sorts by index and inserts the tab before the first member at or above its position; a tab that is not yet a member keeps every member listed once |
| SidebarGroups.Group.RepositionTab | sidebar/group.js:406-448 | keeps the member multiset (so every member stays listed once); throws iff the group is empty; a non-member id only sorts |
| SidebarGroups.Group.SortByPosition | sidebar/group.js:502-507 | the members end sorted by index, each still listed once |
| SidebarGroups.Group.SortByKey | sidebar/group.js:509-545 | for a group with no member listed twice (required): the members end sorted by the key, and the set of occupied indices is kept slot by slot, inside a batch move |
| SidebarGroups.Group.SortMembers | sidebar/group.js:510-522 | for a group with no member listed twice (required): the members are sorted by the key and remain a permutation |
| SidebarGroups.Group.ToggleActive | sidebar/group.js:450-459 | the flag is set and the tab joins or leaves the selection |
| SidebarGroups.Group.CloseExcept | sidebar/group.js:465-473 | closes every member except the one at the index |
| SidebarGroups.Group.CloseAbove | sidebar/group.js:475-480 | closes every member before the index |
| SidebarGroups.Group.CloseBelow | sidebar/group.js:482-487 | closes every member after the index |
| SidebarGroups.Group.RemoveTab | sidebar/group.js:489-500 | removes the tab only if present and keeps the others in order, each still listed once |
| SidebarGroups.Group.UpdateName | sidebar/group.js:563-572 | a non-empty name replaces the old one and is saved when the group is in the list |
| SidebarMain.FindGroup | sidebar/main.js:206-212 | the first group with the uuid, or null iff none has it |
| SidebarMain.FindGroupIndex | sidebar/main.js:561 | the position of the first group with the uuid, or -1 iff none |
| SidebarMain.MoveGroup | sidebar/main.js:577-580 | the dragged group lands at the drop index, and the others are unchanged once it is taken out |
| SidebarMain.MoveGroupInPlace | sidebar/main.js:572-580 | dropping a group onto its own position changes nothing |
| SidebarMain.MoveGroupKeepsOthersInOrder | sidebar/main.js:577-580 | the other groups keep their relative order |
| SidebarMain.FlagAfter | sidebar/main.js:261-267 | effects without begin/end markers leave the batch flag as it was |
| SidebarMain.FlagAfterUnmarked | sidebar/main.js:261-267 | effects without begin/end markers appended to a list leave its final batch flag unchanged |
| SidebarMain.RenamedTo | sidebar/main.js:599-604 | a storage update renames a group only to a non-empty stored name |
| SidebarMain.FirstUnknown | sidebar/main.js:601-603 | the first stored record whose uuid names no group |
| SidebarMain.ApplyRenames | sidebar/main.js:601-604 | records are applied in order up to the first unknown uuid, and the effects are exactly RenameSaves of the applied records |
| SidebarMain.RenameStep | sidebar/main.js:602-603 | one record renames its group and asks to save iff its name is non-empty and the group has a parent, extending RenameSaves by that save |
| SidebarMain.RenameSaves | sidebar/group.js:563-571 | one SaveStorage per record, in order, for each record naming a group with a parent under a non-empty name |
| SidebarMain.RenameSavesNone | sidebar/group.js:563-571 | the records ask for no save iff none names a group with a parent under a non-empty name |
| SidebarMain.Appended | sidebar/group.js:322-356 | without an anchor the entries go last; with a non-member anchor they go first |
| SidebarMain.AppendedMultiset | sidebar/group.js:322-356 | appending adds exactly the entries to the multiset |
| SidebarMain.AppendedAfter | sidebar/group.js:332-340 | with a member anchor the entries land right after it |
| SidebarMain.AppendTo | sidebar/group.js:322-356 | the target's members and group ids become those of the append, and its selection gains the active appended entries when there is an anchor; the effects are the group id writes, inside a batch move closed by the browser move of the whole group and a resync when there is an anchor (left open when the target stays empty, which throws); the batch flag follows them |
| SidebarMain.DropSolo | sidebar/main.js:539-546 | a single dragged tab leaves its group, whose selection stays, and joins the target at the anchor, selected there when active and anchored; the effects are the append's group id write and batch move; the batch flag ends as it was without an anchor and cleared with one; no other listed group changes its members or selection |
| SidebarMain.AppendSolo | sidebar/main.js:545 | appending one tab cannot fail: the tab lands after the anchor and names the target, whose selection gains it when it is active and anchored; the effects are the append's and leave the batch flag set only when it was set and there is no anchor |
| SidebarMain.DropSelected | sidebar/main.js:547-551 | the selected tabs leave their group in group order, that group's selection becomes its clean selection, and they join the target, whose selection gains the active ones when anchored; the effects are the append's; throws iff there is an anchor and the target stays empty, leaving the batch flag set; the members left in the source group keep their group field |
| SidebarMain.DropWithin | sidebar/main.js:547-551 | a selection dropped on its own group: popSelected (sidebar/group.js:161-176) takes the selected members out in member order and cleans the selection, then they are appended after the anchor; the selection gains the active ones when anchored; the effects and batch flag are the append's; the members not moved keep their group field |
| SidebarMain.DropAcross | sidebar/main.js:547-551 | a selection dropped on another group (popSelected, sidebar/group.js:161-176): the source keeps its unselected members and its clean selection, the target receives the moved tabs after the anchor, each moved tab names the target, and the target's selection gains the active ones when anchored; the members left in the source keep their group field |
| SidebarMain.GroupList.constructor | sidebar/main.js:2-10 | the list starts empty, with no active tab and no drag |
| SidebarMain.GroupList.GetTab | sidebar/main.js:202-204 | the cached entry of the id, or null iff uncached |
| SidebarMain.GroupList.GetGroup | sidebar/main.js:206-212 | the first group with the uuid, or null iff none |
| SidebarMain.GroupList.ActiveGroup | sidebar/main.js:230-232 | the active tab's group, or null without an active tab |
| SidebarMain.GroupList.GroupCount | sidebar/main.js:234-236 | the number of groups |
| SidebarMain.GroupList.BeginBatchMove | sidebar/main.js:261-263 | the batch flag is set |
| SidebarMain.GroupList.EndBatchMove | sidebar/main.js:265-267 | the batch flag is cleared |
| SidebarMain.GroupList.ShiftIndices | sidebar/main.js:362-366 | the cache loop applies the ±1 shift to the range |
| SidebarMain.GroupList.SetCachedIndex | sidebar/main.js:368 | one entry's index is set and the others are unchanged |
| SidebarMain.GroupList.OnMoved | sidebar/main.js:332-369 | ignored for another window, while the batch flag is set, or for an unknown or groupless tab; otherwise the tab's group is sorted and the tab moved to the first slot at or above the new index, the cache follows the move arithmetic unless the group was empty (a throw), and no other group changes |
| SidebarMain.GroupList.MoveGrouped | sidebar/main.js:349-368 | the group is sorted and the tab moved to the first slot at or above the new index; the cache follows the move arithmetic, or is untouched when the empty group throws |
| SidebarMain.GroupList.MoveIndices | sidebar/main.js:350-368 | the two loops together are the move arithmetic |
| SidebarMain.GroupList.RemoveTab | sidebar/main.js:427-440 | the entry leaves the cache and its group, the rest follow the removal arithmetic, and every other group's members stay (all of them when the id is unknown); throws iff the id is unknown while the cache is non-empty |
| SidebarMain.GroupList.DropEntry | sidebar/main.js:432-439 | deletes the entry and shifts the indices above it down by one |
| SidebarMain.GroupList.CleanSelectedExcept | sidebar/main.js:173-179 | every other group's selection is cleaned, and the given group's is kept |
| SidebarMain.GroupList.MaybeCleanSelection | sidebar/main.js:181-187 | a click outside every group cleans all selections; otherwise nothing changes |
| SidebarMain.GroupList.DeactivateCurrent | sidebar/main.js:372-374 | the old active tab and its group are deactivated and it leaves the selection |
| SidebarMain.GroupList.SetActive | sidebar/main.js:371-383 | throws iff a tab is given and there was no old active tab; the old tab is deactivated, and so is its group when the group changes, which also drops the old tab from its selection; the new tab and its group are active and the group's selection is the old one (without the old tab in the same group) plus the new tab; when the group changes every other listed group holds its clean selection, otherwise (and when it throws) every other group keeps its selection; no other listed group's active flag changes |
| SidebarMain.GroupList.ActivateEntry | sidebar/main.js:371-383 | setActive on an entry, with all of SetActive's clauses: the exact new active tab, deactivations, the entry's group's new selection, the clean selections of the other groups when the group changes, and unchanged selections and active flags of the other groups otherwise |
| SidebarMain.GroupList.ActivateOnly | sidebar/main.js:376-377 | the tab is activated and its group becomes active with the tab appended to its selection; no other group's selection or active flag changes |
| SidebarMain.GroupList.ActivateTab | sidebar/main.js:376-382 | it throws iff there was no active tab; otherwise the tab becomes the active tab, its group takes it into its selection, and every other group is cleaned when the group changes and left alone otherwise |
| SidebarMain.GroupList.OnActivated | sidebar/main.js:322-330 | ignored for another window, where the active tab, every active flag and every selection stay; otherwise the cached tab (null when not cached) gets SetActive's full effect, including the unchanged selections and active flags of the groups it does not touch, and the groups are saved |
| SidebarMain.GroupList.Destination | sidebar/main.js:413-415 | a new tab joins its stored group when it has a non-empty stored id, otherwise the active group |
| SidebarMain.GroupList.CacheNewEntry | sidebar/main.js:399-411 | the cache follows the creation arithmetic and the entry is visible iff there is no search or it matches; the active tab, active flags and selections stay |
| SidebarMain.GroupList.ShiftUpFrom | sidebar/main.js:399-405 | every cached index at or above the new index moves up by one, and the slot getRightBefore picks in the group is unchanged; the active tab, active flags and selections stay |
| SidebarMain.GroupList.CacheEntry | sidebar/main.js:407 | the entry is cached at its index; the active tab, active flags and selections stay |
| SidebarMain.GroupList.NewEntry | sidebar/main.js:406-411 | a fresh groupless entry, visible iff there is no search or it matches; the active tab, active flags and selections stay |
| SidebarMain.GroupList.PlaceNewEntry | sidebar/main.js:413-424 | with a destination the entry joins it next to the opener or the right neighbour; an active entry then gets SetActive's full effect in that group; without a destination or for an inactive entry the active tab, every active flag and every selection stay; the cache is untouched |
| SidebarMain.GroupList.JoinAndActivate | sidebar/main.js:416-422 | the entry joins the group right after the opener or the member getRightBefore picks; an active entry then gets SetActive's full effect, otherwise the active tab, active flags and selections stay; no other group's members change |
| SidebarMain.GroupList.JoinNear | sidebar/main.js:416-419 | the anchor is the opener, or the member just before the new index |
| SidebarMain.GroupList.OnCreated | sidebar/main.js:391-425 | a no-op for a tab cached with a group; otherwise the cache follows the creation arithmetic (for any window), the entry is visible iff it matches the search, and it is inserted into its destination right after the opener or the member getRightBefore picks (as the only member of an empty group); an active new tab placed in a group gets SetActive's full effect (throwing iff there was no previous active tab), otherwise the active tab, active flags and selections stay; no other group's members change |
| SidebarMain.GroupList.CreateEntry | sidebar/main.js:399-424 | caches a new entry with the creation arithmetic and inserts it into the destination after the same anchor; an active entry placed in a group gets SetActive's full effect, otherwise the active tab, active flags and selections stay; other groups' members are untouched |
| SidebarMain.GroupList.OnAttached | sidebar/main.js:452-471 | ignored for another window; otherwise the tab is cached at its new index without shifting the others; an active tab gets SetActive's full effect, with the previously active group's clean selection taken over its members before the attach; an inactive one leaves the active tab, active flags and selections alone; the tab is inserted by position into the group that was active |
| SidebarMain.GroupList.JoinAttached | sidebar/main.js:462-470 | an active attached tab gets SetActive's full effect (an inactive one leaves the active tab, active flags and selections alone), then joins the group by position, the attach keeping what the activation left; the cache is untouched |
| SidebarMain.GroupList.AttachInGroup | sidebar/main.js:468-470 | the entry joins the group at the slot attachTab picks by position; the cache and its indices are untouched, and the activation state just reached (or kept) still holds |
| SidebarMain.GroupList.MaybeActivate | sidebar/main.js:464-466 | an active attached tab gets SetActive's full effect; an inactive one leaves the active tab, active flags and selections alone; no group's members change |
| SidebarMain.GroupList.ActivateAttached | sidebar/main.js:464-466 | for the new entry, which has no group yet, an active entry gets SetActive's full effect, an inactive one leaves the active tab, active flags and selections alone; the cache and the group's members and by-position slot are untouched |
| SidebarMain.GroupList.CacheAttached | sidebar/main.js:458-461 | the cache gains the tab at its index and nothing else moves; the active tab, active flags, selections and the active group's members stay |
| SidebarMain.GroupList.UpdateEntry | sidebar/main.js:477 | a cached entry takes the fields of the change |
| SidebarMain.GroupList.Resync | sidebar/main.js:165-171 | index, title, URL and the flags are overwritten with the reported ones up to the first uncached tab, where it throws |
| SidebarMain.GroupList.ResyncStep | sidebar/main.js:167-170 | one reported tab's properties are copied |
| SidebarMain.GroupList.CopyRecord | sidebar/main.js:168-169 | one entry takes the reported index, title, URL and flags; the other entries keep theirs |
| SidebarRestore.HostRecords | sidebar/main.js:166-170 | every reported tab id has an entry, so resync finds each reported tab's properties |
| SidebarMain.GroupList.OnUpdated | sidebar/main.js:473-482 | a cached tab takes each of index, title, url, pinned, audible, muted and discarded present in the change and keeps its group and active flag; while a search is active its visibility follows the query |
| SidebarMain.GroupList.FilterFromText | sidebar/main.js:238-243 | every tab is visible iff it matches the query |
| SidebarMain.GroupList.DisplayAll | sidebar/main.js:196-200 | every tab is visible |
| SidebarMain.GroupList.OnSearchKeyUp | sidebar/main.js:23-34 | Escape clears the search and shows all; otherwise tabs show iff the search is empty or they match |
| SidebarMain.GroupList.OnCancelSearch | sidebar/main.js:36-40 | clearing the search shows every tab |
| SidebarMain.GroupList.CreateTabRequest | sidebar/main.js:245-248 | a new tab is always requested active, in the given group or else the active group |
| SidebarMain.GroupList.CacheRestored | sidebar/main.js:131-136 | a start-up tab is cached at its reported index and becomes the active tab if active |
| SidebarMain.GroupList.FillGroup | sidebar/main.js:94-105 | without stored groups, every tab joins the one group in browser order and gets its group id written |
| SidebarMain.GroupList.FillStep | sidebar/main.js:95-103 | one more tab keeps that state |
| SidebarMain.GroupList.FillOne | sidebar/main.js:96-102 | one tab is cached, appended and written |
| SidebarMain.GroupList.PlaceTab | sidebar/main.js:130-156 | a start-up tab is cached and appended to its home group only |
| SidebarMain.GroupList.PlaceTabs | sidebar/main.js:130-156 | after the loop every tab sits in its home group |
| SidebarMain.GroupList.PlaceStep | sidebar/main.js:130-156 | one more tab keeps that state |
| SidebarMain.GroupList.LoadFromLocalStorage | sidebar/main.js:117-163 | one group per record; each holds exactly its home tabs, sorted by index; the cache agrees with the browser |
| SidebarMain.GroupList.SortGroups | sidebar/main.js:159-162 | each group ends sorted by index |
| SidebarMain.GroupList.Populate | sidebar/main.js:86-115 | the cache agrees with the browser and the active tab is the last active one, active in its active group; without stored data one "untitled" group with the new uuid holds every tab in browser order, with the group-id writes and a save; otherwise one group per record, each holding its home tabs sorted by index, with the writes for tabs that had no stored id |
| SidebarMain.GroupList.PopulateNew | sidebar/main.js:91-106 | without stored data: one "untitled" group with the new uuid holds every tab in browser order, with the writes and a save |
| SidebarMain.GroupList.PopulateStored | sidebar/main.js:117-163 | with stored data: one group per record, each holding its home tabs sorted by index |
| SidebarMain.GroupList.ScrollToActive | sidebar/main.js:112-114 | the active tab is activated again in its group |
| SidebarMain.GroupList.PopulateFresh | sidebar/main.js:91-106 | one new group holding every tab in browser order, with the writes and a save |
| SidebarMain.GroupList.AddGroup | sidebar/main.js:189-194 | the group is appended and saved |
| SidebarMain.GroupList.RemoveGroup | sidebar/main.js:214-228 | a no-op for a non-member; otherwise exactly that entry is removed and its tabs are closed, then saved |
| SidebarMain.GroupList.OnStorageChange | sidebar/main.js:594-606 | local group changes rename groups to non-empty stored names, throwing at the first unknown uuid; the saves are exactly RenameSaves of the records applied |
| SidebarMain.GroupList.OnDragStart | sidebar/main.js:493-516 | records the dragged tab, its group and whether it drags alone (at most one selected); throws for a cached tab without a group or a group drag with an unknown group |
| SidebarMain.GroupList.OnDragEnd | sidebar/main.js:518-531 | resets the drag context; throws (and leaves it) iff a solo tab drag has no tab or any other drag has no group |
| SidebarMain.GroupList.DropTabs | sidebar/main.js:533-552 | a solo drag moves one tab, otherwise the selection moves in group order (the source group's selection cleaned); dropping a solo tab onto itself does nothing; throws iff the drag has no group (or no tab), or an anchored drop leaves the target empty; the target's selection gains the active moved tabs when anchored; the effects are the append's (group id writes, and with an anchor a batch move closed by the browser move and a resync), and the batch flag follows them; the dragged group's members that do not move keep their group field; every group other than the target and the dragged group keeps its members and selection |
| SidebarMain.GroupList.DropLone | sidebar/main.js:539-546 | a solo drag onto itself does nothing; otherwise the tab leaves its group, whose selection stays, and joins the target, selected there when active and anchored, with the append's effects; throws iff there is no dragged group or tab; the dragged group's other members keep their group field; every group other than the target and the dragged group keeps its members and selection |
| SidebarMain.GroupList.DropSelection | sidebar/main.js:547-551 | the selection leaves its group in group order, cleaning that group's selection, and joins the target, whose selection gains the active moved tabs when anchored, with the append's effects; throws iff there is no dragged group or an anchored drop leaves the target empty; the unselected members keep their group field; every group other than the target and the dragged group keeps its members and selection |
| SidebarMain.GroupList.DropGroup | sidebar/main.js:571-591 | a group dropped onto itself changes nothing; otherwise the dragged group is taken out at indexOf (the last group when there is none) and reinserted at the target index, which throws iff there is no dragged group and otherwise asks to save; no group's members or selection and no tab's group change |
| SidebarMain.GroupList.OnDrop | sidebar/main.js:554-592 | a missing, empty or unknown target changes no group's members or selection and no tab's group; a group drop moves the dragged group to the target's index, and onto itself changes nothing; a tab drop onto a known group does exactly what the tab drop does (members, selections, effects and batch flag, with only the moved tabs' group field changed), and every group other than the target and the dragged group keeps its members and selection |
| SidebarMain.DropTargetIn | sidebar/main.js:556-564 | the drop target is null exactly for a missing or empty group id or one no listed group has; otherwise it is a listed group with that id |

## Left out

- All DOM work: views, element mirroring, CSS classes, scrolling, the context menu (sidebar/contextmenu.js and the sidebar's `onContextMenu`/`hideContextMenu`), `updateGroupDisplay` and the popup's hover selection swap. The DOM walks `tabIdFromEvent`/`groupIdFromEvent` are inputs.
- Asynchrony: each handler is one atomic step. The awaits, their races and the port message exchange are not modelled; where the source deletes a history entry in an update's callback, that deletion is placed after every synchronous effect of the same handler.
- The deferred `setTimeout` part of `createTab` (moving the new tab after creation) is not modelled; only the request is.
- The JavaScript regex engine is restated as an ASCII case-insensitive literal search (`Common.SearchCI`) and explicit lazy-match functions (`Fuzzy.MatchAt`).
- `localeCompare` is replaced by a total code-point order (`Common.LexLe`).
- URL parsing: the host name of a URL is an input next to the URL.
- Strings are sequences of Unicode scalar values (Dafny `char`), while JavaScript measures strings in UTF-16 code units. For text outside the Basic Multilingual Plane the counts differ: the match positions and lengths of `Fuzzy` (`start`, `subLength`) and the widths of `Colour.PadStart` count characters here, not code units. A JavaScript string can hold a lone surrogate and a Dafny string cannot, so `encodeURIComponent`'s URIError on a lone surrogate (which makes `encodeURL` throw) is not modelled.
- Colour.ParseInt16: computes the exact integer value of the digits, where parseInt computes a double: above 2^53 the source rounds, and a run of digits too long for a double gives Infinity. Colour values have at most six digits, well inside the exact range.
- Colour.ParseHexDigits: states the exact hex value for the same reason; for strings longer than 13 hex digits the source's result is the nearest double, not this integer.
- Common.Decimal: is n.toString() only for safe integers (|n| < 2^53), the range of the tab ids and tab counts the source prints. Larger Numbers are not exact, and from 1e21 on JavaScript prints them in exponent form ("1e+21"), which this function does not produce.
- Floating-point colour maths (`rgbToHsl`, `hslToRgb`, `textColourFromHex`, `setDefaultGroupColour`, `setHoverGroupColour`) is not modelled. Neither is `Math.random` (`randomColour`, the shuffle sort key). `uuid4` is a parameter (`newUuid`, `generated`).
- background/confirm.js and options/options.js (form building and message sending) are not part of this model.
- The popup's keyup and cancel-search handlers (popup/main.js:264-305): their filtering is `Fuzzy.FuzzyMatchTabObjects`, the rest is DOM. The unused `Tab.matches`, the `setActive` messaging and the group click / createTab messages are not modelled.
- Popup module globals (`cache`, `currentTab`, the selected element) are parameters and results of `Popup.Prepare`/`Popup.OnNewGroup`, not fields of an object.
- Popup.Prepare: requires one session value per tab, since the values are read for exactly those tabs.
- The debug helpers `verifyCache`, `debugGroup` and `checkTabs` appear only as the invariant `TabOrder.Matches`.
- Popup.OnNewGroup: requires the reply to carry a uuid. The reply comes from a createGroup handler that is not part of this model; a reply without one would be stored under the key `undefined`, which no string key can stand for.
- SidebarMain.GroupList.Valid: states only that each cached entry sits under its own tab id. The link "an entry's group lists it exactly when the entry names that group" is not kept as an invariant; each handler's contract states instead which group's members and which entry's group change.
- SidebarGroups.Group.Valid: (no member listed twice) is established by the constructors and kept by `AddTab`, `LoadTab`, `AttachTab` (for a tab that is not yet a member), `RepositionTab`, `RemoveTab`, `SortByPosition`, `SortMembers` and `SortByKey` (the last two require it, see below); the batch operations (`AppendTabs`, `InsertTabs`, `LoadTabs`, `AddNearIndex`) state their new member list exactly but not this consequence.
- SidebarGroups.Group.SortByKey: requires `Valid()`, which sortByKey (sidebar/group.js:509-545) never checks. With a member listed twice, the slot-by-slot index writes would overwrite each other, and the kept-positions clause would not hold. The only callers are the group's own sort menu items (sidebar/group.js:630-638), and their members are distinct. `SortMembers` has the same requires.

## Findings

| source | as written | input that shows it | evidently intended | confidence | as-written member | corrected member |
|---|---|---|---|---|---|---|
| sidebar/main.js:452-471 | `onAttached` caches the attached tab at its new index but does not shift the cached indices at or after it | cache {1:0} matching order [1]; tab 2 attached at position 0 gives {1:0, 2:0}, which matches no order and is not a permutation | shift every index at or above the new position by one, as `onCreated` does | not executed | TabOrder.AttachedLosesMatch | TabOrder.CreatedMatchesHost |

`SidebarMain.GroupList.OnAttached` stays faithful to the code as written and uses `TabOrder.Attached`; `TabOrder.Created` with `TabOrder.CreatedKeepsPermutation` and `TabOrder.CreatedMatchesHost` is the corrected arithmetic.
