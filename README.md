# JarLoader and the completion popup's list rules, modelled in Dafny

This project models two parts of the IntelliJ platform.

**`JarLoader`** is one classpath root backed by a JAR archive. It has four parts:
- **Attributes:** it reads the six package attributes from the manifest's main section once, at construction.
- **Preload:** it can preload the whole archive into a `JarMemoryLoader`.
- **Resolution:** `getResource` looks a name up in the memory loader first, then in the archive. Any failure is logged with the canonical file path and answered with `null`.
- **Index:** `buildData` feeds every entry name to the classpath index.

Archive handles follow one policy. With `myCanLockJar`, one cached `ZipFile` is reused until the garbage collector clears its soft reference; closing is left to its finalizer. Without it, every operation opens a handle and closes it before it returns.

The state is a `class JarLoader`:
- the cached handle;
- the memory loader;
- the attribute map.

It runs over a `class Platform` (module `Host`) that holds:
- the files on disk;
- the set of open handles;
- a counter of handles ever opened;
- the error log.

Clearing a soft reference is an explicit step (`ReclaimZipFile`, `ReclaimMemoryLoader`).

**`LookupImpl`** is the completion popup. Its model covers:
- how `updateList` builds the rows: a capped preferred section of whole weight groups, then the other suitable items in `myItems` order, or a single "no suggestions" placeholder;
- the first-minimum choice of `doSelectMostPreferableItem`;
- the common-prefix scan of `fillInCommonPrefix` and the edit it makes;
- `getCurrentItem` and `calcLookupStart`;
- the document edit of `finishLookup`.

The pure rules live in module `LookupLogic`. The popup's state (`myPrefix`, `myPreferredItemsCount`, the list rows, the selected row, `myIndex`) and the editor's text, caret and selection are two classes in module `Lookup`. Two things are parameters:
- `suits` tests each lookup string against the prefix. The case-insensitive prefix test or camel-humps pattern behind it is an abstract `Matcher`.
- The preference policy is an abstract `Comparator`.

Each imperative operation is a method proved against a specification function (`PackageAttributes`, `Resolve`, `ListModel`, `IsMostPreferable`, `CommonPrefixOutcome`, `CompletedText`). The lemmas beside each function prove what the source promises about it.

`buildData` does not close its handle itself: it hands it to `releaseZipFile` (JarLoader.java:103-119, 158-168). With `myCanLockJar` that handle stays open and cached, and `BuildData`'s ensures state that handle policy.

## Model

| member | source | states |
|---|---|---|
| Archives.PackageFieldsWellFormed | platform/util/src/com/intellij/util/lang/JarLoader.java:41-47 | PACKAGE_FIELDS pairs each of the six attributes with its own manifest header, and each attribute appears once, at its own position |
| Archives.FieldIndex | platform/util/src/com/intellij/util/lang/JarLoader.java:41-47 | every attribute has a position in PACKAGE_FIELDS whose key is that attribute |
| Archives.FindEntry | platform/util/src/com/intellij/util/lang/JarLoader.java:137 | `getEntry` finds nothing exactly when no entry has the name; otherwise it finds an entry of the archive with that name |
| Archives.LoadResource | platform/util/src/com/intellij/util/lang/JarLoader.java:139 | `MemoryResource.load` fails exactly when the entry's bytes cannot be read; otherwise the resource holds the entry's name and bytes, the base URL and the attribute map |
| Archives.MemoryLookup | platform/util/src/com/intellij/util/lang/JarLoader.java:130 | `JarMemoryLoader.getResource` answers exactly when the name was preloaded, with the resource preloaded under it |
| Archives.Preload | platform/util/src/com/intellij/util/lang/JarLoader.java:65-68 | no memory loader when the archive is not accepted; an error when an entry cannot be read; otherwise every entry in memory, under its name, first entry winning |
| Archives.PreloadStampsResources | platform/util/src/com/intellij/util/lang/JarLoader.java:65 | every preloaded resource carries the loader's base URL and the attribute map passed to `JarMemoryLoader.load` |
| Host.Platform.OpenZip | platform/util/src/com/intellij/util/lang/JarLoader.java:192 | `new ZipFile` opens exactly one fresh handle when the file exists, and fails with the path and opens nothing otherwise |
| Host.Platform.Close | platform/util/src/com/intellij/util/lang/JarLoader.java:163 | `close` removes exactly that handle from the open set |
| JarLoading.PackageAttributesExact | platform/util/src/com/intellij/util/lang/JarLoader.java:77-98 | a non-null attribute map holds an attribute exactly when the manifest has its header, with the header's value |
| JarLoading.JarLoader.GetAttributes | platform/util/src/com/intellij/util/lang/JarLoader.java:77-98 | the loop returns `PackageAttributes`: null without a manifest entry, an error for an unreadable manifest, null when no field is present, else exactly the fields present |
| JarLoading.JarLoader.Init | platform/util/src/com/intellij/util/lang/JarLoader.java:55-59 | the base URL is `jar:` + url + `!/`; index, canonical file and lock flag are stored; nothing is cached yet |
| JarLoading.JarLoader.Create | platform/util/src/com/intellij/util/lang/JarLoader.java:55-74 | an open failure propagates and opens nothing; otherwise exactly one handle is opened and released (still open only when locked, and then cached); success exactly when attributes and the requested preload succeed; the memory loader is installed only when preloading was asked for and `load` returned one |
| JarLoading.JarLoader.GetZipFile | platform/util/src/com/intellij/util/lang/JarLoader.java:171-209 | a live cached handle is returned without opening; otherwise exactly one handle is opened, and it becomes the cache only when locked; an open failure changes nothing |
| JarLoading.JarLoader.ReleaseZipFile | platform/util/src/com/intellij/util/lang/JarLoader.java:158-168 | locked: no handle is closed; unlocked: exactly the released handle is closed |
| JarLoading.JarLoader.Error | platform/util/src/com/intellij/util/lang/JarLoader.java:153-156 | the message is appended to the log |
| JarLoading.JarLoader.GetResource | platform/util/src/com/intellij/util/lang/JarLoader.java:127-151 | the answer is `Resolve` (memory loader first, then the archive the handle shows); it carries the loader's URL and attributes; exactly one log line "file: " + path when the archive cannot be opened or the entry cannot be read; a memory hit touches no handle; unlocked leaves the open set unchanged; at most one handle opened |
| JarLoading.JarLoader.BuildData | platform/util/src/com/intellij/util/lang/JarLoader.java:103-119 | both the resource entries and the name entries are every entry name in enumeration order; an open failure propagates; unlocked leaves the open set unchanged |
| JarLoading.JarLoader.ReclaimZipFile | platform/util/src/com/intellij/util/lang/JarLoader.java:52 | clearing the handle's soft reference empties the cache, and its finalizer closes exactly the cached handle |
| JarLoading.JarLoader.ReclaimMemoryLoader | platform/util/src/com/intellij/util/lang/JarLoader.java:51 | clearing the memory loader's soft reference leaves the loader without one, still valid |
| JarLoading.ResolveAll | platform/util/src/com/intellij/util/lang/JarLoader.java:179-195 | a run of lookups with no reclamation: locked opens at most one handle and closes none; with a cached handle it opens none and every lookup reads the cached archive; unlocked leaves the open set unchanged |
| JarLoading.ResolvePreloadedDetached | platform/util/src/com/intellij/util/lang/JarLoader.java:128-132 | a memory-loader hit is the preloaded resource whatever the archive holds |
| JarLoading.ResolveMissing | platform/util/src/com/intellij/util/lang/JarLoader.java:134-141 | a memory miss with no entry of that name resolves to null |
| JarLoading.ResolveFromArchive | platform/util/src/com/intellij/util/lang/JarLoader.java:137-139 | a memory miss falls through to the first entry of that name, whose bytes come back with the loader's URL and attributes |
| JarLoading.ResolveStamped | platform/util/src/com/intellij/util/lang/JarLoader.java:139 | every resolved resource carries the loader's base URL and the attribute map fixed at construction |
| LookupLogic.SuitsScan | lang-impl/src/com/intellij/codeInsight/lookup/impl/LookupImpl.java:252-260 | the loop over the item's lookup strings answers true exactly when one of them matches the prefix |
| LookupLogic.SuitableInMembers | lang-impl/src/com/intellij/codeInsight/lookup/impl/LookupImpl.java:273-278 | a group's suitable list holds exactly the group's items that suit |
| LookupLogic.PreferredSectionShape | lang-impl/src/com/intellij/codeInsight/lookup/impl/LookupImpl.java:271-287 | the preferred section is the suitable items of the first k whole groups; group k+1 would overflow the cap (break, not skip); the section never exceeds the cap |
| LookupLogic.PreferredMembers | lang-impl/src/com/intellij/codeInsight/lookup/impl/LookupImpl.java:271-286 | every preferred item is an item of `myItems` that suits |
| LookupLogic.RemainingMembers | lang-impl/src/com/intellij/codeInsight/lookup/impl/LookupImpl.java:289-294 | the second section holds exactly the suitable items of `myItems` not already preferred |
| LookupLogic.RemainingKeepsOrder | lang-impl/src/com/intellij/codeInsight/lookup/impl/LookupImpl.java:289-294 | the second section follows `myItems` order: the section for a concatenation is the concatenation of the sections |
| LookupLogic.ListModelShowsSuitable | lang-impl/src/com/intellij/codeInsight/lookup/impl/LookupImpl.java:268-301 | the preferred count is at most MAX_PREFERRED_COUNT (5); no preferred item is repeated; apart from the placeholder the rows are exactly the items that suit |
| LookupLogic.ListModelPlaceholderIff | lang-impl/src/com/intellij/codeInsight/lookup/impl/LookupImpl.java:295-301 | the rows are the single placeholder exactly when no item suits |
| LookupLogic.DoSelectMostPreferableItem | lang-impl/src/com/intellij/codeInsight/lookup/impl/LookupImpl.java:629-658 | -1 without a policy or when no item is considered; else a considered item no later one beats; under a strict weak order no considered item beats it and it beats every earlier considered item (the earliest of the best) |
| LookupLogic.CommonPrefixLongest | lang-impl/src/com/intellij/codeInsight/lookup/impl/LookupImpl.java:537-548 | the common prefix of two strings is a prefix of both, and every common prefix is a prefix of it |
| LookupLogic.ShrinkCommonPrefix | lang-impl/src/com/intellij/codeInsight/lookup/impl/LookupImpl.java:537-548 | dropping the last character until the suffix starts with what is left yields the longest common prefix |
| LookupLogic.ScanRow | lang-impl/src/com/intellij/codeInsight/lookup/impl/LookupImpl.java:536-549 | one later row shrinks the common prefix to that of the rows so far; while something is left, it keeps the strictness flag and the agreed covered part of the rows so far |
| LookupLogic.CommonPrefixUpToLongest | lang-impl/src/com/intellij/codeInsight/lookup/impl/LookupImpl.java:526-551 | after any number of rows, the common prefix is a prefix of each row's suffix and the longest such |
| LookupLogic.CommonPrefixUpToShrinks | lang-impl/src/com/intellij/codeInsight/lookup/impl/LookupImpl.java:537-549 | the common prefix only shrinks as rows are added, so once empty it stays empty |
| LookupLogic.StrictSoFarMeansStrictBefore | lang-impl/src/com/intellij/codeInsight/lookup/impl/LookupImpl.java:539-541 | the accumulated `isStrict` holds exactly when some later row goes past the common prefix of the rows up to it |
| LookupLogic.AgreedSoFarMeansAgreedHead | lang-impl/src/com/intellij/codeInsight/lookup/impl/LookupImpl.java:542-544 | the accumulated `subprefix` is the covered part exactly when every row agrees on it, and null otherwise |
| LookupLogic.NoPlaceholderBeforeMeansNone | lang-impl/src/com/intellij/codeInsight/lookup/impl/LookupImpl.java:528 | the scan passes a row only when it is not the placeholder |
| LookupLogic.CommonPrefixScan | lang-impl/src/com/intellij/codeInsight/lookup/impl/LookupImpl.java:526-551 | the loop's outcome is `CommonPrefixOutcome`: abort on a placeholder or an emptied common prefix; otherwise the common prefix of all suffixes, the agreed covered part and the strictness flag |
| LookupLogic.StrictnessDependsOnOrder | lang-impl/src/com/intellij/codeInsight/lookup/impl/LookupImpl.java:537-541 | the scan's strictness depends on row order: each row is compared only with the common prefix of the rows up to it, so rows "abc", "ab" are not strict and rows "ab", "abc" are |
| LookupLogic.CommonPrefixSharedByAll | lang-impl/src/com/intellij/codeInsight/lookup/impl/LookupImpl.java:526-551 | a successful scan saw no placeholder; its prefix is a prefix of every row's suffix and the longest such; it is empty only with a single row |
| LookupLogic.CorrectedTextStartsEveryRow | lang-impl/src/com/intellij/codeInsight/lookup/impl/LookupImpl.java:556-566 | when the rows agree on the covered part, that part followed by the common prefix starts every row's lookup string |
| LookupLogic.FirstIndex | lang-impl/src/com/intellij/codeInsight/lookup/impl/LookupImpl.java:313 | selecting the old value finds its first row, or -1 exactly when it is no longer listed |
| LookupLogic.CompletedText | lang-impl/src/com/intellij/codeInsight/lookup/impl/LookupImpl.java:396-405 | both edit branches keep the text before the lookup start and the text after the prefix. When the lookup string starts with the prefix, the document's own prefix characters stay and the rest of the lookup string follows them. Otherwise the whole lookup string goes in. The lookup string itself lands in the document only when the document holds the prefix (`CompletionReplacesPrefix`) |
| LookupLogic.CompletionKeepsDocumentCase | lang-impl/src/com/intellij/codeInsight/lookup/impl/LookupImpl.java:396-399 | with the document holding "AB" and the prefix "ab", completing "abc" leaves "ABc": the typed characters keep their case |
| LookupLogic.CompletionReplacesPrefix | lang-impl/src/com/intellij/codeInsight/lookup/impl/LookupImpl.java:396-407 | when the document holds the prefix at the lookup start, both branches replace exactly that range by the lookup string |
| Lookup.Editor.InsertStringAtCaret | lang-impl/src/com/intellij/codeInsight/lookup/impl/LookupImpl.java:564 | the string replaces the selection, or goes in at the caret; the caret ends after it; no selection is left |
| Lookup.LookupImpl.constructor | lang-impl/src/com/intellij/codeInsight/lookup/impl/LookupImpl.java:78-194 | the editor, items, policy, weight groups and matcher are stored; a null prefix becomes ""; the rows are `ListModel` with its preferred count; `myIndex` is the most preferable row. When some item suits, that row is selected, or row 0 when `myIndex` is -1. When nothing suits, the only row is the placeholder, nothing is selected unless the policy picked it, and there is no current item |
| Lookup.LookupImpl.UpdateList | lang-impl/src/com/intellij/codeInsight/lookup/impl/LookupImpl.java:262-322 | the rows are `ListModel` and the preferred count is that of the preferred section; nothing suits: placeholder, nothing selected; otherwise the most preferable row, else the first row still equal to the old selection, else row 0 |
| Lookup.LookupImpl.SelectMostPreferableItem | lang-impl/src/com/intellij/codeInsight/lookup/impl/LookupImpl.java:439-444 | `myIndex` is the most preferable row and is selected when it is not -1 |
| Lookup.LookupImpl.SelectedValue | lang-impl/src/com/intellij/codeInsight/lookup/impl/LookupImpl.java:448 | `getSelectedValue` (also read by `finishLookup`) is null exactly when no row is selected, and otherwise the selected row |
| Lookup.LookupImpl.GetCurrentItem | lang-impl/src/com/intellij/codeInsight/lookup/impl/LookupImpl.java:447-453 | the current item is the selected row exactly when a row is selected and it is not the placeholder; otherwise there is none, so with only the placeholder listed there is none |
| Lookup.LookupImpl.CalcLookupStart | lang-impl/src/com/intellij/codeInsight/lookup/impl/LookupImpl.java:432-437 | the lookup start is the prefix length before the selection start, or before the caret with no selection; when the document holds the prefix just before that point, the lookup start is a valid offset where the prefix sits in the document |
| Lookup.LookupImpl.FillInCommonPrefix | lang-impl/src/com/intellij/codeInsight/lookup/impl/LookupImpl.java:521-573 | true exactly when the scan succeeds and (it is strict or a unique name is wanted); false edits nothing; true extends `myPrefix` by the common prefix, case-corrects the typed prefix when the rows agree, and inserts the common prefix at the caret |
| Lookup.LookupImpl.InsertCommonPrefix | lang-impl/src/com/intellij/codeInsight/lookup/impl/LookupImpl.java:556-566 | the command replaces the typed prefix by the agreed covered part, extends `myPrefix` and inserts at the caret |
| Lookup.LookupImpl.FinishLookup | lang-impl/src/com/intellij/codeInsight/lookup/impl/LookupImpl.java:356-414 | a row is chosen exactly when one is selected, it is not the placeholder, and it is not a deferred value that declines; otherwise nothing is edited; a chosen row's lookup string replaces the prefix (`CompletedText` after deleting the selection), with the caret after it and no selection |
| Lookup.LookupImpl.InsertLookupString | lang-impl/src/com/intellij/codeInsight/lookup/impl/LookupImpl.java:380-413 | the write action's edits give `CompletedText` of the document without its selection, the caret at lookup start + length, and no selection |
| Lookup.WithoutSelection | lang-impl/src/com/intellij/codeInsight/lookup/impl/LookupImpl.java:393-395 | deleting the selection removes exactly the selected range: the text before its start, then the text after its end; without a selection the text is unchanged |
| Lookup.CaseCorrected | lang-impl/src/com/intellij/codeInsight/lookup/impl/LookupImpl.java:558-561 | the case correction keeps the length, puts the agreed covered part at the lookup start and leaves the text before and after that range unchanged; with no agreed part the text is unchanged |

## Left out

- The parsed manifest main section is keyed by header names in their canonical case. `Attributes.Name` compares header names ignoring case; the model compares them exactly.
- Archives.Preload: that an unreadable entry makes the whole preload fail, and that the first entry of a repeated name wins, are assumed behaviour of `JarMemoryLoader.load`, which is not part of this model.
- Concurrency in `JarLoader` is not modelled: the `volatile` field and the double-checked lock on the shared `ourLock`. The model is sequential.
- The timing and request counters (`System.nanoTime`, the atomic counters) are diagnostics and are left out.
- ZIP decoding, `Manifest` parsing, `JarMemoryLoader`'s acceptance policy and `MemoryResource` are not part of this model. An archive carries their outcomes: entries with readable-or-not bytes, the parsed main attributes or a parse failure, and a preloadable flag.
- `FileUtil.unquote` and `getCanonicalFile` are not part of this model. The canonical path is a parameter, and the base URL is the string `jar:` + url + `!/`.
- `Logger` is modelled as an append-only log of messages. The exception object passed with each message is dropped.
- `ZipFile.close` and `InputStream.close` never fail in the model.
- A JVM garbage collection is the explicit step `ReclaimZipFile` or `ReclaimMemoryLoader`. Nothing clears a soft reference in the middle of an operation.
- The weight map (`initWeightMap`, PSI weights, proximity) is not modelled. Its groups in key order are a parameter, assumed drawn from `myItems`.
- Two collaborators are abstract parameters:
  - the Perl5 camel-humps pattern and the case-insensitive prefix test inside `suits` (`Matcher`);
  - `LookupItemPreferencePolicy.compare` (`Comparator`).
- `ListScrollingUtil.selectItem` is not part of this model. Selecting an old value is taken as selecting its first equal row.
- `JList.setModel` clearing the selection is modelled by setting the selected row to -1. `setSelectedIndex(-1)` leaves the selection as it was.
- The constructor's deferred `invokeLater` re-selection is not modelled.
- Swing is not modelled: components, the cell renderer, widths and visible row count, `calculatePosition`, the hint manager, listeners and fired events, `hide`, and `repaint`.
- The lookup-start range marker created by `show` is not modelled. `getLookupStart` is taken to be `calcLookupStart`.
- `DeferredUserLookupValue.handleUserSelection` is modelled only as its boolean answer. Its side effects are not.
- The editor's logical positions and `scrollToCaret` are not modelled. The caret is an offset.
- Lookup.LookupImpl.FillInCommonPrefix: requires every non-placeholder row to be at least as long as the typed prefix. Where that fails, the source throws from `substring`, and the model does not cover that exception. It also requires a non-negative lookup start, as the document edits do.
- Lookup.LookupImpl.constructor: requires that no item of `myItems` carries the placeholder tag. `EMPTY_ITEM_ATTRIBUTE` is package-private, so only `updateList` sets it, on the placeholder it creates.
- Lookup.LookupImpl.FinishLookup: requires a non-negative lookup start, which the document edits need.
- `fillInCommonPrefix` with an empty list model is unreachable, because `updateList` always leaves at least one row. There the source would append the string "null" to the prefix; the model's scan answers "no rows" and returns false.
