# XVK site core in Dafny

A model of the logic of a small Next.js site for a volunteer organisation,
and proofs about it. Every persistence call in the site goes to a hosted
database; the model keeps the pure string, list and state-transition code
around those calls and takes each call's outcome as an input.

The modules follow the site's files:

- `TextRepair` (text_repair.dfy): `cleanText`. It applies nine literal
  replace-all rules for UTF-8 mojibake, collapses whitespace runs and trims.
  `Strings` (strings.dfy) holds the string primitives it needs:
  ECMAScript whitespace, `replaceAll`, `trim`, ASCII `toLowerCase` and
  `includes`.
- `MojibakeTool` (mojibake_tool.dfy): the maintenance script that rewrites
  eligible files under `src` and `tools` in place. It works over a file tree
  value and returns the scanned / changed / skipped counters.
- `Csv` (csv.dfy): `csvEscape` and the line building of `downloadCsv`.
  A reader for the same format, following section 2 of RFC 4180, gives the
  round-trip.
- `AdminPanel` (admin.dfy): story search and selection, `saveEvent`
  validation and payload, and the RSVP export rows.
- `OrgLeaders` (org_leaders.dfy): number clamps, leader ordering, the next
  order for a new leader, and the local list updates.
- `Events` (events.dfy): the upcoming-events list, and the RSVP form and
  payload.
- `Timeline` (timeline.dfy): the open-index state machine of the history
  timeline.
- `Home` (home.dfy): `asNumber`, the count fallbacks, and the history
  toggle.
- `AboutPanel` (about_panel.dfy): the top four active leaders and the
  strength figures.
- `Experiences` (experiences.dfy) and `NewStory` (new_story.dfy): story
  cards, and the story submission form.
- `Contact` (contact.dfy): the contact form.
- `Wrappers`, `Seqs`, `Numbers`: `Option`/`Result`, generic list functions
  (filter, stable insertion sort, take, max) and integer/decimal text.

The maintenance script does not call `cleanText`. It applies its own copy
of the nine rules (`MojibakeTool.PatternsMatchCleanText` proves it is the
same table) with `split`/`join`. It never collapses whitespace and never
trims (`MojibakeTool.RewriteDoesNotCollapse`). The model follows the code.

JavaScript details are written out where they matter:

- the whitespace set of `\s` and `trim`, including NBSP;
- `x || null` and `x || fallback` on strings;
- `x ?? d`;
- `Number(x) || 1` reading 0 as 1;
- `Math.max(1, …)`;
- Node's `path.extname`.

Times are integers (milliseconds). The current time, the database results,
upload outcomes and confirmation dialogs are parameters.

## Model

| member | source | states |
|---|---|---|
| TextRepair.CleanText | src/lib/utils.ts:12-32 | null/undefined gives ""; the result contains no U+00C2 and no NBSP; its only whitespace is single spaces between two non-whitespace characters |
| TextRepair.RuleTableShape | src/lib/utils.ts:14-27 | every pattern is non-empty and ASCII-free; every replacement is one ASCII character or empty; the seven quote/dash patterns are the markers |
| TextRepair.QuoteDashCannotCreateMarker | src/lib/utils.ts:15-23 | a quote or dash replacement never creates an occurrence of any pattern of the chain that was absent |
| TextRepair.NormalizedShape | src/lib/utils.ts:30-31 | cleaned text is single-spaced and has no leading or trailing whitespace |
| TextRepair.CleanTextIdentity | src/lib/utils.ts:12-32 | text with no pattern, no U+00C2, no NBSP and already single-spaced with no edge whitespace is returned unchanged |
| TextRepair.CleanTextRemovesMarkers | src/lib/utils.ts:15-31 | for input without U+00C2, none of the seven quote/dash markers survives |
| TextRepair.CleanTextIdempotent | src/lib/utils.ts:15-31 | for input without U+00C2, cleaning twice equals cleaning once |
| TextRepair.SplicedMarkerSurvives | src/lib/utils.ts:15-26 | the input U+00E2 U+00C2 U+20AC U+2122 ("âÂ€™") cleans to the apostrophe marker itself, so unconditional marker removal and idempotence fail |
| TextRepair.ArtifactOnlyCleansToEmpty | src/lib/utils.ts:26-31 | a lone U+00C2 cleans to "" |
| TextRepair.Clean | src/lib/utils.ts:30-31 | cleaned text is its own trim, and it is blank exactly when it is empty |
| MojibakeTool.PatternsMatchCleanText | tools/cleanup-mojibake.mjs:9-20 | the tool's table is the same nine (pattern, replacement) pairs, in the same order, as `cleanText`'s chain |
| MojibakeTool.QuickFilterSound | tools/cleanup-mojibake.mjs:54-57 | text lacking "â€", "Â" and NBSP is left unchanged by the rewrite, so the quick filter never changes an outcome |
| MojibakeTool.AsciiTextUntouched | tools/cleanup-mojibake.mjs:54-57 | pure-ASCII text fails the quick filter and is not rewritten |
| MojibakeTool.RewriteKeepsWhitespace | tools/cleanup-mojibake.mjs:56-57 | every whitespace character other than NBSP and space keeps its count; spaces never decrease |
| MojibakeTool.RewriteDoesNotCollapse | tools/cleanup-mojibake.mjs:56-57 | ASCII text that starts with whitespace passes through the rewrite unchanged, while `cleanText` always changes it |
| MojibakeTool.Rewrite | tools/cleanup-mojibake.mjs:56-57 | the rewritten text contains no U+00C2 and no NBSP |
| MojibakeTool.ShouldProcessByExtension | tools/cleanup-mojibake.mjs:22-25 | for a stem without '.' and a '.'-led extension, the extension found is exactly that suffix, so the file is processed exactly when the lower-cased suffix is one of the ten listed; the bare stem and a name whose only '.' leads it are not processed |
| MojibakeTool.NoExtension | tools/cleanup-mojibake.mjs:22-25 | a name with no '.' after its first character has the empty extension and is not processed |
| MojibakeTool.ExtName | tools/cleanup-mojibake.mjs:22-25 | the extension is empty or a '.'-led suffix with no other '.'; it is empty exactly when there is no '.', when the only '.' leads the name, or for ".." |
| MojibakeTool.ProcessFile | tools/cleanup-mojibake.mjs:45-66 | scanned goes up by one; at most one of changed/skipped goes up; an unreadable or oversized file is skipped and untouched; the written text is exactly the rewrite; changed goes up exactly when the content changed; skipped goes up exactly on read failure, the size cap, or an unwritable file whose content would change |
| MojibakeTool.WalkEntries | tools/cleanup-mojibake.mjs:27-39 | the result is a walk of the entries that never enters an excluded directory; changed equals the number of files whose content differs; the run crashes exactly when a directory it opens cannot be listed; otherwise scanned equals the eligible files reachable |
| MojibakeTool.WalkMatchesExpected | tools/cleanup-mojibake.mjs:27-66 | a walk that does not crash leaves exactly the expected tree: every eligible, readable, small enough and writable file holds its rewrite, excluded directories are untouched and every other node is unchanged; skipped grows by exactly the number of reachable eligible files that are unreadable, too large, or unwritable while needing repair |
| MojibakeTool.RunMatchesExpected | tools/cleanup-mojibake.mjs:68-72 | a run that does not crash leaves the first `src` and first `tools` directory holding the expected tree of their entries and every other root entry unchanged; skipped is the sum over those two directories |
| MojibakeTool.Run | tools/cleanup-mojibake.mjs:68-72 | only the `src`/`tools` root entries change; changed + skipped ≤ scanned; changed counts the rewritten files; the crash and scan counts are as for the walks of the existing targets |
| MojibakeTool.RepairRightQuote | tools/cleanup-mojibake.mjs:11 | "It", the apostrophe marker and "s" are rewritten to "It's" |
| MojibakeTool.ExcludedDirectoryPruned | tools/cleanup-mojibake.mjs:27-39 | for a `src` directory holding an eligible file in need of repair and an excluded directory such as `node_modules`, the run counts 1 scanned, 1 changed, 0 skipped; the file is rewritten and the excluded directory is left as it is, whatever it holds |
| Csv.EscapeText | src/app/admin/page.tsx:67-72 | text without `"`, `,`, LF or CR is returned as is; otherwise it is wrapped in quotes; the result starts with a quote exactly when quoting is needed |
| Csv.Escape | src/app/admin/page.tsx:68 | null/undefined gives "" |
| Csv.FieldRoundTrip | src/app/admin/page.tsx:67-72 | reading an escaped field back under section 2 of RFC 4180 gives the original text and stops at the following separator |
| Csv.RecordRoundTrip | src/app/admin/page.tsx:78-79 | a line of escaped fields joined by "," reads back as the same fields |
| Csv.DocRoundTrip | src/app/admin/page.tsx:77-81 | lines joined by "\n" read back as the same table |
| Csv.BuildCsv | src/app/admin/page.tsx:74-81 | nothing is produced exactly when there are no rows |
| Csv.Table | src/app/admin/page.tsx:76-79 | the header line is the first row's keys; every line has one cell per header, a missing key giving "" |
| Csv.BuildCsvRoundTrip | src/app/admin/page.tsx:74-81 | the text built for a non-empty row list reads back as the header line followed by one line per row |
| AdminPanel.FilteredStories | src/app/admin/page.tsx:367-379 | a story is kept exactly when its status matches ("all" matches any) and the folded query is empty or occurs in its folded title, name or content |
| AdminPanel.FilteredStoriesOrdered | src/app/admin/page.tsx:369-378 | the filtered list is an order-preserving subsequence of the stories |
| AdminPanel.BlankQueryKeepsStatusMatches | src/app/admin/page.tsx:367-379 | a query that cleans to nothing keeps every status match; with "all", the whole list |
| AdminPanel.SelectedStory | src/app/admin/page.tsx:381-384 | a story is selected exactly when some filtered story has the selected id, and then it is the first such story in the filtered list; null id selects nothing |
| AdminPanel.EventError | src/app/admin/page.tsx:307-309 | no error exactly when the cleaned title and description are non-empty and a start exists; a blank title is reported first, then a blank description, then a missing start |
| AdminPanel.SaveEvent | src/app/admin/page.tsx:307-328 | an error exactly when validation fails, with that error's text; otherwise the payload has the non-empty cleaned title and description, the cleaned location or null exactly when it cleans to "", the start and end as converted, the chosen status, and it is an update of that id exactly when an event id is set |
| AdminPanel.TitleCheckedFirst | src/app/admin/page.tsx:307-309 | a blank title gives the title error whatever the other fields hold |
| AdminPanel.RsvpRow | src/app/admin/page.tsx:808-815 | the export record has the six fixed headers in order, every cell present: the ISO timestamp, the cleaned name, email, phone and note (missing ones as ""), and the count's decimal text, a missing count as "1" |
| AdminPanel.RsvpCountDefault | src/app/admin/page.tsx:814 | an RSVP with no count reads back as count 1 |
| AdminPanel.RsvpExportRoundTrip | src/app/admin/page.tsx:806-816 | the export of a non-empty RSVP list reads back with the fixed header line and one line per RSVP |
| OrgLeaders.AsInt | src/components/admin/OrgLeadersAdmin.tsx:32-36 | a non-finite number gives the fallback; a finite one gives a non-negative integer: the floor of a non-negative value, and 0 for anything below 1 |
| OrgLeaders.MemberCountPayload | src/components/admin/OrgLeadersAdmin.tsx:88 | the member count sent is never negative: 0 for a non-finite count or one below 1, otherwise the floor of the input |
| OrgLeaders.LeadersSorted | src/components/admin/OrgLeadersAdmin.tsx:109-111 | the list is a permutation of the leaders in non-decreasing order |
| OrgLeaders.LeadersSortedStable | src/components/admin/OrgLeadersAdmin.tsx:110 | leaders sharing an order keep their relative order |
| OrgLeaders.NextOrderAsWritten | src/components/admin/OrgLeadersAdmin.tsx:118-120 | 1 for no leaders; otherwise one more than some leader's order, with 0 read as 1, and above every existing order |
| OrgLeaders.NextOrderAsWrittenCanBeNonPositive | src/components/admin/OrgLeadersAdmin.tsx:118-120 | one leader with order -3 gives next order -2 |
| OrgLeaders.NextOrder | src/components/admin/OrgLeadersAdmin.tsx:118-120 | 1 for no leaders; otherwise at least 2 and above every existing order |
| OrgLeaders.NextOrderAgrees | src/components/admin/OrgLeadersAdmin.tsx:118-120 | when no order is negative, the corrected and as-written next orders agree |
| OrgLeaders.InsertSortOrder | src/components/admin/OrgLeadersAdmin.tsx:118-126 | as written: a prefilled order is sent as `Math.max(1, order)`: kept when it is ≥ 1, exactly 1 below that; without one the as-written next order is sent, which is above every existing order |
| OrgLeaders.InsertSortOrderCanBeNonPositive | src/components/admin/OrgLeadersAdmin.tsx:118-126 | with no prefill and one leader of order -3, the order sent on insert is -2 |
| OrgLeaders.InsertSortOrderPositive | src/components/admin/OrgLeadersAdmin.tsx:118-126 | when no existing order is negative, the order sent on insert is ≥ 1 |
| OrgLeaders.InsertSortOrderCorrected | src/components/admin/OrgLeadersAdmin.tsx:118-126 | corrected: the order sent is always ≥ 1, a prefilled order ≥ 1 is kept, without a prefill it is above every existing order, and it agrees with the as-written order whenever no order is negative |
| OrgLeaders.NewLeaderPayload | src/components/admin/OrgLeadersAdmin.tsx:122-127 | name and role are cleaned, the photo passes through; a prefilled order is sent as `Math.max(1, order)` (kept when ≥ 1, exactly 1 below), otherwise the as-written next order |
| OrgLeaders.AddLeader | src/components/admin/OrgLeadersAdmin.tsx:132 | a successful insert appends the returned row and keeps every earlier row in place |
| OrgLeaders.SaveSortOrder | src/components/admin/OrgLeadersAdmin.tsx:152 | the order saved is ≥ 1, equal to the row's order when that is ≥ 1 |
| OrgLeaders.SavePayload | src/components/admin/OrgLeadersAdmin.tsx:149-154 | the saved fields are the cleaned name and role, the photo, and the order: kept when ≥ 1, exactly 1 below that |
| OrgLeaders.SaveLeader | src/components/admin/OrgLeadersAdmin.tsx:141-166 | an unknown id changes nothing and sends nothing; otherwise the payload is built from the first row with the id; only rows with the id change, each to the row merged with the payload; length and order are kept; a failed save changes nothing |
| OrgLeaders.DeleteLeader | src/components/admin/OrgLeadersAdmin.tsx:168-185 | without confirmation or on failure nothing changes; otherwise no row with the id remains and every other row is kept |
| OrgLeaders.DeleteLeaderKeepsOrder | src/components/admin/OrgLeadersAdmin.tsx:178 | the rows left are in their original order |
| OrgLeaders.SetLeaderPhoto | src/components/admin/OrgLeadersAdmin.tsx:187-191 | only `photo_url`, and only of rows with the id, changes |
| OrgLeaders.EditSortOrder | src/components/admin/OrgLeadersAdmin.tsx:341-344 | the typed order replaces the matching rows' order, whatever its sign |
| OrgLeaders.FourPositions | src/components/admin/OrgLeadersAdmin.tsx:282-288 | nothing is added exactly when any leader exists; otherwise four prefills with no name or photo, the roles President, Secretary, Treasurer and Scout Master, and orders 1 to 4 in that order |
| OrgLeaders.FourPositionsOrders | src/components/admin/OrgLeadersAdmin.tsx:282-288 | the four inserts get exactly the orders 1 to 4 |
| Events.Upcoming | src/app/events/page.tsx:36-46 | every listed event is published and inside the time window; the list is a permutation of the visible events; timed events come first in ascending start order |
| Events.UpcomingMembers | src/app/events/page.tsx:39-44 | an event is listed exactly when it was loaded, is published, and either starts no more than six hours ago or has an unparseable start |
| Events.StaleEventHidden | src/app/events/page.tsx:43 | an event that started more than 21,600,000 ms ago is not listed |
| Events.OpenRsvp | src/app/events/page.tsx:71-80 | the form opens for the given event with both messages cleared, name, email, phone and note empty, and the count 1 |
| Events.OpenRsvpForgets | src/app/events/page.tsx:71-80 | opening the form does not depend on its earlier state; the name is "" and the count is 1 |
| Events.SubmitRsvp | src/app/events/page.tsx:82-98 | nothing happens without an open event id; rejection exactly when the cleaned name is empty; an insert has count 1, the open event's id, the non-empty cleaned name, and email, phone and note each the cleaned text or null exactly when it cleans to "" |
| Events.SubmitSeesCleanedFields | src/app/events/page.tsx:82-98 | two forms for the same event whose text fields clean alike give the same outcome |
| Events.SubmitIgnoresCount | src/app/events/page.tsx:89-96 | the count input never changes the outcome |
| Events.FreshFormRejected | src/app/events/page.tsx:71-98 | a just-opened form is rejected with "Name is required." |
| Events.InsertedFieldsClean | src/app/events/page.tsx:92-95 | every optional field sent is non-empty cleaned text |
| Timeline.InitialOpenIndex | src/components/HistoryTimeline.tsx:28-32 | the index is in [-1, len-1]; it is -1 exactly for an empty list or a negative default; an in-range default is used as is, a larger one becomes the last item |
| Timeline.Toggle | src/components/HistoryTimeline.tsx:103 | item i is open afterwards exactly when it was not before; no other item is open |
| Timeline.Focus | src/components/HistoryTimeline.tsx:36-37 | item i is open afterwards and no other is |
| Timeline.TransitionsKeepRange | src/components/HistoryTimeline.tsx:28-103 | for an item of the list, toggle and focus keep the index in [-1, len-1] |
| Timeline.ToggleTwice | src/components/HistoryTimeline.tsx:103 | two clicks restore the state when the item was open or nothing was; otherwise they leave nothing open |
| Home.AsNumber | src/app/page.tsx:107-111 | null when the value is null/undefined or coerces to a non-finite number; otherwise that number |
| Home.FirstNumber | src/app/page.tsx:130-139 | the result is the first candidate column that gives a number, and null exactly when none does |
| Home.MemberCount | src/app/page.tsx:130-133 | `member_count` when it gives a number, else `strength` when it does, else `current_strength` |
| Home.VolunteerCount | src/app/page.tsx:136-139 | `volunteer_count` when it gives a number, else `volunteers` when it does, else `volunteers_count` |
| Home.LoadStats | src/app/page.tsx:126-144 | a failed query or an unmounted page keeps the counts; otherwise each count becomes the first row's value when that row gives one and keeps its previous value when not; a count never goes from set back to null |
| Home.MemberCountFallsThrough | src/app/page.tsx:130-133 | a non-finite `member_count` falls through to `strength` |
| Home.Show | src/app/page.tsx:283-290 | a null count shows the dash, any other its value |
| Home.ToggleExpanded | src/app/page.tsx:366-371 | an item is expanded afterwards exactly when it was not; no other item is |
| AboutPanel.ActiveLeaders | src/components/AboutOrgPanel.tsx:31-34 | at most four leaders, all active and loaded, in ascending order, and a prefix of the sorted active list of length min(4, active count) |
| AboutPanel.OmittedLeaderSortsAfter | src/components/AboutOrgPanel.tsx:32 | an active leader left out means four leaders are shown, none with a larger order |
| AboutPanel.FigureText | src/components/AboutOrgPanel.tsx:125-132 | "..." while loading; otherwise the value, or 0 when missing, followed by "+" |
| AboutPanel.MembersText | src/components/AboutOrgPanel.tsx:61-72 | "..." while loading; otherwise the decimal text of the row's member count, or 0 when the row or column is missing, followed by "+" |
| AboutPanel.MembersTextReadsBack | src/components/AboutOrgPanel.tsx:61-72 | the digits shown read back as the member count, or 0 when missing |
| AboutPanel.LeaderCards | src/components/AboutOrgPanel.tsx:90 | four placeholder cards while loading, otherwise one card per shown active leader |
| AboutPanel.FigureTextReadsBack | src/components/AboutOrgPanel.tsx:125-132 | the digits shown read back as the stored value, or 0 when missing |
| Experiences.Meta | src/app/experiences/page.tsx:93-94 | an empty location gives the year; otherwise year + " \| " + location |
| Experiences.MetaLeadingSeparator | src/app/experiences/page.tsx:89-94 | for cleaned fields, the line starts with whitespace exactly when the year is empty and the location is not, the dangling " \| " |
| Experiences.MetaLine | src/app/experiences/page.tsx:109 | a non-empty meta is drawn as is, and an empty one as a single space |
| Experiences.CardOf | src/app/experiences/page.tsx:86-101 | image, alt and meta line are never empty; the image is the cleaned URL when that is non-empty, and the placeholder exactly when it is empty or is the placeholder path; the alt is the title when that is non-empty, and the default exactly when it is empty or is that text; title, content and author are the row's cleaned fields; the meta line is " " with neither year nor location, the year alone without a location, and year, " \| " and location otherwise |
| Experiences.CardOfRecleaned | src/app/experiences/page.tsx:86-101 | a row without U+00C2 gives the same card after its fields are replaced by their cleaned text |
| NewStory.Safe | src/app/experiences/new/page.tsx:32-36 | the stored field is the cleaned text itself: the extra trim changes nothing |
| Strings.SpacesToUnderscores | src/app/experiences/new/page.tsx:42 | the length is kept and each character is '_' where the input has a space, and the input's character otherwise |
| Strings.UnderscoresBack | src/app/experiences/new/page.tsx:42 | for text without '_', turning every '_' back into a space restores it |
| NewStory.UploadName | src/app/experiences/new/page.tsx:42 | the object name is the cleaned file name with its spaces made underscores, and it contains no whitespace |
| NewStory.UploadPath | src/app/experiences/new/page.tsx:42-43 | the path is the time stamp, "-" and the object name, and contains no whitespace |
| NewStory.StampedNameSplits | src/app/experiences/new/page.tsx:43 | for a non-negative time, the first '-' of `${time}-${name}` ends the time, whose digits read back, and the name follows it |
| NewStory.Submit | src/app/experiences/new/page.tsx:24-80 | an upload happens exactly when a file is chosen, to the stamped path of its name; an insert exactly when there is no file or the upload succeeded; the row is "pending" with the safe name, title and content, location and year each the safe text or null exactly when that is "", and the upload's public URL exactly when there is a file; after success every field is cleared; after a failure the fields are kept and the error is the thrown message, or "Failed to submit." when that is empty |
| NewStory.SubmittedFormNotSendable | src/app/experiences/new/page.tsx:19-75 | the form cleared by a successful submission cannot be sent again |
| NewStory.ArtifactNamePassesButStoresEmpty | src/app/experiences/new/page.tsx:19-36 | a name made only of "Â" passes the check but is stored as "" |
| Contact.Payload | src/app/contact/page.tsx:27-32 | name, email and message are the trimmed inputs; phone is the trimmed input, or null exactly when it is blank; every field sent is trimmed |
| Contact.CanSubmitIffRequiredFields | src/app/contact/page.tsx:16-32 | the form may be sent exactly when nothing is in flight and the row to insert has a non-empty name, email and message |
| Contact.PayloadResendStable | src/app/contact/page.tsx:27-32 | sending the stored row's fields again stores the same row |
| Contact.SendableHasRequiredFields | src/app/contact/page.tsx:16-32 | a sendable form gives a non-empty name, email and message |
| Contact.ContactKeepsMarkers | src/app/contact/page.tsx:27-32 | no `cleanText` is applied: a mojibake marker is stored as typed |
| Contact.AfterSubmit | src/app/contact/page.tsx:33-44 | success clears all four fields and sets the confirmation; failure keeps the fields and sets the error to the thrown message, or "Failed to send. Check Supabase keys/policies." when that is empty |
| Contact.ClearedFormNotSendable | src/app/contact/page.tsx:16-39 | the cleared form cannot be sent again |

## Left out

- Database calls: authentication, queries, inserts, updates, deletes, storage uploads and `getPublicUrl`. Their outcomes are parameters (`dbOk`, `insertOk`, `uploadOk`, the loaded rows) because they are calls into a hosted service.
- File-system calls in the maintenance script: `readdirSync`, `statSync`, `readFileSync`, `writeFileSync`, `existsSync`, and the console summary. The tree value carries what they would report. A file's size is a field independent of its content.
- Symbolic links and other special entries below a target directory are `Other` nodes: `Dirent` reports them as neither directory nor file, and the walk passes over them.
- MojibakeTool.Run: a `src` or `tools` root that is a symbolic link to a directory is walked by the script, because `existsSync` and `readdirSync` follow links; the model has no link targets, represents such a root as an `Other` node and treats it like any root that is not a directory, as a crash of the run (which is what `readdirSync` does for a root that is a plain file).
- Date handling: `toIsoFromLocal`, `isoToLocalInput`, `toISOString`, `toLocaleString` and `Date.now()`. Times are integer inputs, and an event start that does not parse is `None`.
- Events.Upcoming: JavaScript's comparator returns NaN for an unparseable start, and the resulting order is implementation-defined. The model places those events after the timed ones, in load order.
- JavaScript `Number()` coercion and floating point. Coerced values are the `Num` datatype (finite real or non-finite). `sort_order` is an integer, so a NaN sort order and NaN prefilled orders are not modelled.
- `toLowerCase` is applied to ASCII letters only.
- `String(v)` of non-string cells in the CSV export: the only number exported, the RSVP count, is written as its decimal text.
- Csv.BuildCsvRoundTrip: requires at least one header. With no keys every line is empty and the text cannot be read back.
- Object key order: the export rows are written with their keys in declaration order. This matches `Object.keys` because none of the keys is an integer-like string.
- `defaultOpenIndex` is an integer. Fractional values are not modelled.
- Browser plumbing: Blob/anchor downloads, `scrollIntoView`, `uid()`, file inputs, `confirm()` (its answer is the `confirmed` parameter) and rendering beyond the displayed strings.
- The `busy`/`loading` flags of the events and admin pages are not modelled, and neither are the error texts of thrown database errors in `saveEvent`, `submitRsvp` and the leader operations.
- `cn` is a wrapper around two styling libraries and is not part of this model.

## Findings

| source | as written | input that shows it | evidently intended | confidence | as-written member | corrected member |
|---|---|---|---|---|---|---|
| src/components/admin/OrgLeadersAdmin.tsx:118-120 | `nextOrder` is one more than the largest `Number(sort_order) \|\| 1`; that maps only 0 to 1, so negative orders pass through | one leader whose Order field was typed as -3 (the field's handler stores `parseInt` as is): the next leader is inserted with order -2 | every order the panel sends is at least 1, as on the save path (line 152) and the prefilled path (line 126) | medium, not executed | OrgLeaders.NextOrderAsWritten, OrgLeaders.NextOrderAsWrittenCanBeNonPositive, OrgLeaders.InsertSortOrder, OrgLeaders.InsertSortOrderCanBeNonPositive | OrgLeaders.NextOrder, OrgLeaders.InsertSortOrderCorrected |
