# HierarchyTree record tab — a Dafny model

VuFind's `HierarchyTree` record tab shows the hierarchy trees a catalogue
record belongs to, such as an archival finding aid or the volumes of a
multi-volume work. It decides four things:

- whether the tab is shown at all;
- which tree is active, based on the `hierarchy` request parameter;
- whether the full tree or only a partial tree is displayed;
- how the hierarchy driver's pre-rendered markup gets the request's base URL.

The tab delegates the rendering itself to the hierarchy driver. It then
replaces the `%%%%VUFIND-BASE-URL%%%%` token in that markup with the base URL,
after `rtrim` has removed its trailing slashes. The tab also reports two
`[Hierarchy]` configuration settings: whether tree search is on, and the search
result limit.

The model has three modules:

- `Wrappers` (`wrappers.dfy`): the `Option` datatype. It stands for PHP's
  `null`.
- `PhpStrings` (`php_strings.dfy`): the PHP string behaviour the tab relies on.
  - Truthiness of a string: only `""` and `"0"` are falsy.
  - `rtrim` with a one-character mask, as `RTrim`.
  - `str_replace` with one search string, as `ReplaceAll`. It is a
    left-to-right scan that does not overlap matches.
  - A reference description of the same scan: `Split` (explode) and `Join`
    (implode). `ReplaceAll` is proved equal to it.
- `HierarchyTree` (`hierarchy_tree.dfy`): the tab itself.
  - Every collaborator is a plain value: the record driver's answers, the
    hierarchy driver's `fullHierarchyRecordView` setting and its render
    function, the request's POST and query values, and the configuration.
  - A `Tab` is immutable and holds the tree-list cache.
  - Every operation that consults the memoised tree list returns the updated
    `Tab` next to its result. `getTreeList`, `isActive`, `getActiveTree`,
    `getFullHierarchySetting` and `renderTree` work this way.
  - `getDescription` is `HierarchyTree.GetDescription`, which returns
    `"hierarchy_tree"`.

Edge cases where the code's behaviour is easy to misread:

- Without a hierarchy driver, `getFullHierarchySetting` does not answer
  `false` at once. It falls through to comparing the active tree with the
  record's unique id (lines 138-151), and the model does the same.
- `getPost('hierarchy', getQuery('hierarchy', false))` uses the query value
  only when the POST parameter is absent. A POST value that is present wins
  even when it is falsy (`""` or `"0"`). The resolution then treats it as
  "nothing requested".
- `getActiveTree` on an empty tree list with nothing truthy requested reads
  `$keys[0]` of an empty array. PHP yields `null` for that undefined index,
  and the model returns `None`.
- The comparison `$activeTree == $uniqueId` is PHP's loose `==`. Two strings
  compare as strings. A `null` active tree is compared with a string by first
  turning `null` into `""`. So it equals only the empty id, and `null == "0"`
  is false (`ActiveMatchesId`).
- The placeholder begins and ends with `%%%%`, so two occurrences can
  overlap. `str_replace` replaces the occurrences that a left-to-right,
  non-overlapping scan meets. An occurrence that overlaps one already replaced
  stays as text, and the model does the same.

## Model

| member | source | states |
|---|---|---|
| HierarchyTree.GetDescription | module/VuFind/src/VuFind/RecordTab/HierarchyTree.php:74-77 | The tab's description is the fixed key `"hierarchy_tree"`, whatever the tab's state. |
| HierarchyTree.GetTreeList | module/VuFind/src/VuFind/RecordTab/HierarchyTree.php:114-124 | The first call takes the record driver's trees, with an absent (null) answer read as the empty list. A filled cache is returned as it is. Only the cache of the tab changes. |
| HierarchyTree.TreeListMemoised | module/VuFind/src/VuFind/RecordTab/HierarchyTree.php:114-124 | After the first call, the list is never re-queried. Even if the record driver would answer differently, the same list comes back and the tab state stays unchanged. |
| HierarchyTree.IsActive | module/VuFind/src/VuFind/RecordTab/HierarchyTree.php:84-88 | The tab is active iff the tree list is non-empty. |
| HierarchyTree.InactiveIffNoTrees | module/VuFind/src/VuFind/RecordTab/HierarchyTree.php:84-88 | A fresh tab is inactive exactly when the record driver's answer is absent or an empty list. |
| HierarchyTree.PostShadowsQuery | module/VuFind/src/VuFind/RecordTab/HierarchyTree.php:98-100 | A POST `hierarchy` value that is present is used whatever the query string holds. Otherwise the query value is used. With no request, nothing is requested. |
| HierarchyTree.ResolveActiveTree | module/VuFind/src/VuFind/RecordTab/HierarchyTree.php:101-106 | With one tree, its id wins. With nothing truthy requested, the first id in driver order wins. With two or more trees and a truthy request, the requested value is returned verbatim. The result is None exactly for an empty list with nothing truthy requested. |
| HierarchyTree.GetActiveTree | module/VuFind/src/VuFind/RecordTab/HierarchyTree.php:95-107 | The active tree is the resolution rule applied to the memoised list and the requested value. The tab comes back with its cache filled. |
| HierarchyTree.SingleTreeIgnoresRequest | module/VuFind/src/VuFind/RecordTab/HierarchyTree.php:101-103 | With exactly one tree, every request yields that tree's id. |
| HierarchyTree.ActiveTreeOrigin | module/VuFind/src/VuFind/RecordTab/HierarchyTree.php:101-106 | The active tree is either a tree id of the list or the requested value. If the list is non-empty and the request is falsy or names a tree, the result is a tree id of the list. |
| HierarchyTree.ActiveTreeFollowsDriverOrder | module/VuFind/src/VuFind/RecordTab/HierarchyTree.php:101-106 | Worked cases. The first key is taken by position, not by sorting. A requested value is returned even when it is not a key. `"0"` counts as nothing requested. An empty list gives None. |
| HierarchyTree.ActiveMatchesId | module/VuFind/src/VuFind/RecordTab/HierarchyTree.php:149 | The loose `==` between the active tree and the unique id. It is string equality after `null` has become `""`, so a null active tree matches only the empty id. |
| HierarchyTree.NullActiveTreeComparison | module/VuFind/src/VuFind/RecordTab/HierarchyTree.php:149 | A null active tree matches `""` but not `"0"`. A matching null active tree implies a falsy id. A tree id matches itself. |
| HierarchyTree.GetFullHierarchySetting | module/VuFind/src/VuFind/RecordTab/HierarchyTree.php:131-155 | A driver whose `fullHierarchyRecordView` is unset or truthy gives the full tree, and the cache is left untouched. In every other case, including no driver, the result is true iff the active tree loosely equals the record's unique id. |
| HierarchyTree.PartialTreeOnlyWhenAllowed | module/VuFind/src/VuFind/RecordTab/HierarchyTree.php:138-154 | A partial tree is chosen iff two things hold. There is no driver, or the driver set `fullHierarchyRecordView` to a falsy value. And the active tree is not the record itself. |
| HierarchyTree.NoDriverFallsThrough | module/VuFind/src/VuFind/RecordTab/HierarchyTree.php:148-151 | Without a hierarchy driver, the result is exactly the active-tree-equals-unique-id test. |
| HierarchyTree.FullHierarchyExamples | module/VuFind/src/VuFind/RecordTab/HierarchyTree.php:138-154 | Worked cases. An unset setting gives the full tree. An explicit `false` gives the full tree at the top record and a partial tree elsewhere. |
| HierarchyTree.NullActiveTreeExamples | module/VuFind/src/VuFind/RecordTab/HierarchyTree.php:95-154 | Worked cases with no trees and no driver, where the active tree is null. A record with id `"0"` gets the partial tree with or without a request. A record with id `""` and no request gets the full tree. |
| HierarchyTree.TrimmedBaseUrl | module/VuFind/src/VuFind/RecordTab/HierarchyTree.php:174 | The substituted URL is a prefix of the base URL and does not end in `/`. Only `/` characters were cut off. |
| HierarchyTree.RenderTree | module/VuFind/src/VuFind/RecordTab/HierarchyTree.php:166-178 | Without a hierarchy driver the result is `""`. Otherwise it is the driver's "List" markup, for the given id or else the active tree. The markup is cut at the placeholders and joined back with the trimmed URL. A given id leaves the tab unchanged. |
| HierarchyTree.RenderWithoutPlaceholder | module/VuFind/src/VuFind/RecordTab/HierarchyTree.php:172-175 | Driver markup without the placeholder is returned unchanged. |
| HierarchyTree.RenderGivenIdIgnoresRequest | module/VuFind/src/VuFind/RecordTab/HierarchyTree.php:168 | A given id bypasses the active-tree resolution. The request and the cached tree list do not affect the rendered result. |
| HierarchyTree.RenderSubstitutesPlaceholders | module/VuFind/src/VuFind/RecordTab/HierarchyTree.php:172-175 | Four facts about the pieces of the driver's markup between the placeholders the left-to-right, non-overlapping scan meets. Joined with the placeholder, they rebuild the markup. None of them holds a whole placeholder. Each cut is the leftmost placeholder: the first piece ends where the first placeholder starts, and the other pieces are the split of the markup after that placeholder. Joined with the trimmed URL, they are the rendered tree. |
| HierarchyTree.ShortTailKept | module/VuFind/src/VuFind/RecordTab/HierarchyTree.php:173-175 | After a replaced occurrence, text too short to hold another occurrence is kept as it is. |
| HierarchyTree.OverlappingPlaceholderExample | module/VuFind/src/VuFind/RecordTab/HierarchyTree.php:173-175 | Markup with two overlapping placeholders, at index 0 and index 19. Only the first is replaced, and the rest is kept as text. |
| HierarchyTree.TwoPlaceholders | module/VuFind/src/VuFind/RecordTab/HierarchyTree.php:173-175 | Both placeholders of a two-placeholder markup are replaced, and the text between them is kept. |
| HierarchyTree.SubstitutionExample | module/VuFind/src/VuFind/RecordTab/HierarchyTree.php:173-175 | For `http://host/base/`, the trailing slash is stripped and every placeholder becomes `http://host/base`. |
| HierarchyTree.RenderExample | module/VuFind/src/VuFind/RecordTab/HierarchyTree.php:166-178 | `renderTree("http://host/base/", "t1")` replaces both placeholders of the driver's markup for `t1` with `http://host/base`. |
| HierarchyTree.SearchActive | module/VuFind/src/VuFind/RecordTab/HierarchyTree.php:185-189 | Tree search is off exactly when `Hierarchy.search` is set to a falsy value. |
| HierarchyTree.GetSearchLimit | module/VuFind/src/VuFind/RecordTab/HierarchyTree.php:196-201 | Returns the configured `Hierarchy.treeSearchLimit`, or -1 when it is unset. |
| HierarchyTree.ConfigDefaults | module/VuFind/src/VuFind/RecordTab/HierarchyTree.php:185-201 | Without `[Hierarchy]` settings, search is on and the limit is -1. |
| PhpStrings.RTrim | module/VuFind/src/VuFind/RecordTab/HierarchyTree.php:174 | `rtrim(s, c)` is a prefix of `s` that does not end in `c`, and everything it cut off is `c`. |
| PhpStrings.RTrimUnique | module/VuFind/src/VuFind/RecordTab/HierarchyTree.php:174 | Those three properties determine the result. Any prefix with them equals `RTrim`. |
| PhpStrings.RTrimIdempotent | module/VuFind/src/VuFind/RecordTab/HierarchyTree.php:174 | Trimming an already trimmed string changes nothing. |
| PhpStrings.ReplaceAllIsJoinOfSplit | module/VuFind/src/VuFind/RecordTab/HierarchyTree.php:173-175 | `str_replace` equals cutting the subject at the occurrences a left-to-right, non-overlapping scan finds and joining the pieces with the replacement. |
| PhpStrings.JoinSplit | module/VuFind/src/VuFind/RecordTab/HierarchyTree.php:173-175 | The pieces joined with the search string give the subject back, so nothing besides the occurrences is dropped. |
| PhpStrings.SplitPiecesNeedleFree | module/VuFind/src/VuFind/RecordTab/HierarchyTree.php:173-175 | No kept piece contains the whole search string. Every occurrence the scan meets is cut out, and an occurrence that overlaps one already cut out straddles a cut. |
| PhpStrings.SplitCutsAtFirstOccurrence | module/VuFind/src/VuFind/RecordTab/HierarchyTree.php:173-175 | With several pieces, the first cut is at the leftmost occurrence: one starts right after the first piece, and none starts inside it. The remaining pieces are the split of the text after that occurrence, so by induction every cut is the leftmost occurrence after the previous one. A single piece means the search string does not occur at all. |
| PhpStrings.SplitTailAfterCut | module/VuFind/src/VuFind/RecordTab/HierarchyTree.php:173-175 | With several pieces, the first piece and one search string fit inside the text, and the remaining pieces are exactly the split of the text that follows that first occurrence. |
| PhpStrings.ReplaceAllAbsent | module/VuFind/src/VuFind/RecordTab/HierarchyTree.php:173-175 | A subject without the search string is returned unchanged. |
| PhpStrings.ReplaceAllSelf | module/VuFind/src/VuFind/RecordTab/HierarchyTree.php:173-175 | Replacing the search string by itself is the identity. |
| PhpStrings.ReplaceAllAtNeedle | module/VuFind/src/VuFind/RecordTab/HierarchyTree.php:173-175 | At an occurrence, the scan emits the replacement and resumes right after the occurrence. |
| PhpStrings.ReplaceAllKeepsPlainText | module/VuFind/src/VuFind/RecordTab/HierarchyTree.php:173-175 | Text in which the search string's first character never occurs is copied through the scan unchanged. |
| PhpStrings.ReplaceAllAtOther | module/VuFind/src/VuFind/RecordTab/HierarchyTree.php:173-175 | At a character where no occurrence can start, the scan keeps that character and moves on by one. |

## Left out

- Configuration loading through `ConfigReader::getConfig()` and its
  memoisation (lines 61-67). The `[Hierarchy]` settings are an input value
  (`Config`).
- The record driver's `tryMethod` reflection. A missing method and a `null`
  answer are both `None`. A driver answer that is neither null nor an array
  (for example `false`) is not modelled.
- The request object. Only the `hierarchy` parameter's POST and query values
  are modelled, as strings. Array-valued parameters are not modelled.
- The hierarchy driver's `getTreeSettings` and `render`. Both belong to
  foreign code. The setting is an optional scalar. The rendered markup comes
  from an opaque function of the context, the mode and the tree id.
- PHP's numeric-string coercion in loose `==` (for example `"1" == "01"`).
  Two strings are compared by string equality.
- PHP truthiness of floats, arrays and objects. Scalars are booleans,
  integers and strings.
- PHP's conversion of numeric-string array keys to integers. Tree ids stay
  strings. The model does not require tree ids to be distinct, and `count()`
  is the length of the list.
- `str_replace` with array arguments, and byte-level string encoding.
  Strings are sequences of characters.
- The undefined-offset notice PHP raises when `getActiveTree` reads `$keys[0]`
  of an empty array (line 103). Only the `null` result is modelled.
- HierarchyTree.GetSearchLimit: returns the configured value as an integer.
  PHP would return a configured string verbatim.
