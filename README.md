# eTemplate, modelled in Dafny

eTemplate is a small browser templating engine. A page is HTML with `<% … %>` directives. The engine:

- cuts the page into literal segments and directive segments (`seperateCode`);
- groups the segments of each control block (`findBlockEnd`, `makeSyncBlock`, `eachBlock`);
- marks every group with class tokens so that it can be found again on the page (`insertSync`);
- renders every unit (`interpret`, `basicCode`, `controlCode`).

After a variable changes, `sync()` renders the marked groups again (`interpretPart`). It reads each element's class tokens back and writes the new values into the element's attributes, class list or content. `syncCss()` does the same for the page's styles:

- it parses the rendered style text into rule objects (`parseCSS`, `parseRules`);
- it diffs the new rules against the kept ones;
- it drives the live style sheet with `setProperty`, `removeProperty`, `deleteRule` and `insertRule` calls.

A companion worker (worker.js) has its own `seperateCode` and the url helpers that rewrite relative paths.

The Dafny modules follow that structure:

- `JsText` (js_text.dfy): the JavaScript string built-ins the engine relies on (`indexOf`, `lastIndexOf`, `substring`, `trim`, `split`, `join`, `replace`, `replaceAll`, `parseInt`, `${n}`), `escapeHtml` and `removeControlText`.
- `Segmenter` (segmenter.dfy): `seperateCode` of the engine and of the worker, including the merge of adjacent literals.
- `Blocks` (blocks.dfy): `findBlockEnd`, `makeSyncBlock` and `eachBlock`.
- `Interpreter` (interpret.dfy): `basicCode`, `controlCode`, `interpret` and `interpretPart`.
- `Anchors` (anchors.dfy): `insertSync` and the `templateInClass` entries it writes.
- `ElementSync` (element_sync.dfy): the element loop of `sync()`: reading the class tokens and writing the group.
- `Css` (css.dfy): `standardReturn`, `parseRules`, `createTextStyle`, `parseCSS` and `arrayFind`.
- `CssSync` (css_sync.dfy): the three passes of `syncCss()` on a live sheet.
- `Engine` (engine.dfy): the engine object: what `render`/`readFurther`, `changeCss` and `syncCss()` keep in its fields.
- `Worker` (worker.dfy): the worker's path helpers and the url it keeps.

Template expressions are evaluated by a function `eval: string -> Completion` passed in as a parameter. A call either returns a value or throws a message.

Loops of the source are methods with `while` loops. Each is proved equal to a specification function, and the properties are proved about that function. Rendering, anchoring and style diffing work on values (`seq`, `map`, datatypes). The engine object and the worker are classes whose methods write their fields.

## Model

| member | source | states |
|---|---|---|
| `JsText.EscapeHtml` | etemplate.js:1616-1629 | no character among `< > " ' ( )` is left raw, and a text with none of them and no `&` is unchanged; the worker's copy (worker.js:435-448) is the same function |
| `JsText.EscapeHtmlAmpersands` | etemplate.js:1616-1629 | every `&` in the escaped text begins one of the seven entities, so no `&` of the input is left raw |
| `JsText.EscapeHtmlRoundTrip` | etemplate.js:1616-1629 | escaping loses nothing: decoding the entities gives the input back |
| `JsText.DecodeEscaped` | worker.js:435-448 | every entity `escapeHtml` writes decodes to its character, and a kept character starts no entity |
| `JsText.RemoveControlTextCounts` | etemplate.js:1631-1633 | no carriage return, line feed or tab is left, and every other character survives as often as it occurs in the input; the worker's copy (worker.js:450-452) is the same function |
| `JsText.RemoveControlTextConcat` | etemplate.js:1631-1633 | the survivors keep their order: removing from two pieces one after the other gives the removal from their concatenation |
| `JsText.RemoveControlTextCons` | etemplate.js:1631-1633 | a leading carriage return, line feed or tab is dropped and any other leading character is kept in front |
| `JsText.ParseIntOfNat` | etemplate.js:167 | `parseInt(…, 10)` reads back exactly the number that `${syncCnt}` wrote into a counter token |
| `JsText.ParseIntReads` | etemplate.js:167 | `parseInt(…, 10)` of blanks, an optional `+` or `-`, the decimal text of `n` and anything not starting with a digit is `n` with that sign |
| `JsText.ParseIntDigits` | etemplate.js:167 | the same for any non-empty run of digits: its decimal value with the sign |
| `JsText.ParseIntNaN` | etemplate.js:167 | `parseInt(…, 10)` is NaN when, after the blanks and an optional sign, no digit, blank or sign follows |
| `JsText.ParseIntSkipsBlanks` | etemplate.js:167 | leading white space does not change what `parseInt` reads |
| `JsText.SignedReads` | etemplate.js:167 | after an optional sign, `parseInt` reads the value of the digits at the front, negated after a `-` |
| `JsText.Split` | etemplate.js:1581 | there is at least one piece, and joining the pieces with the separator gives the string back |
| `JsText.SplitPiecesFree` | etemplate.js:1581 | no piece that `split` returns contains the separator |
| `JsText.SplitJoin` | etemplate.js:164 | splitting on a one-character separator undoes joining pieces free of it |
| `JsText.SplitLastPiece` | etemplate.js:164 | the last piece of a split is what follows the last separator |
| `JsText.TrimIsPadded` | etemplate.js:1585 | the result is one piece of the input, with nothing but white space before and after it in the input, and it neither starts nor ends with white space |
| `JsText.TrimStartPadded` | etemplate.js:1585 | `trimStart` of white space followed by a word not starting with white space is that word |
| `JsText.IndexOf` | etemplate.js:954 | the index is the leftmost occurrence, or -1 exactly when there is none |
| `JsText.LastIndexOf` | etemplate.js:927-928 | the index is the rightmost occurrence, or -1 exactly when there is none |
| `Segmenter.SeparateCode` | etemplate.js:569-601 | the segments are the classified pieces of the split on the directive pattern, merged; no two literals are adjacent, in "first" mode they join back into the page, and the directive entries are the stripped directive pieces |
| `Segmenter.MergeAdjacentHtml` | etemplate.js:589-599 | the backward merge loop yields `Merge` of its input: the concatenated text and the directive entries are unchanged, and no two literal entries are adjacent |
| `Segmenter.MergeKeepsText` | etemplate.js:589-599 | merging loses no text |
| `Segmenter.MergeKeepsDirectives` | worker.js:121-131 | merging touches only literal entries: the directive entries are unchanged and in order |
| `Segmenter.SplitDirectives` | etemplate.js:570-573 | literal pieces alternate with directive matches, and their concatenation is the page |
| `Segmenter.ClassifiedDirectives` | etemplate.js:576-588 | the directive entries of the classification are the directive pieces, rewritten for the mode |
| `Segmenter.ClassifyFirst` | etemplate.js:576-588 | in "first" mode classification rewrites nothing |
| `Segmenter.Strip` | etemplate.js:583 | in "second" mode a directive loses two characters at each end and is trimmed |
| `Segmenter.WorkerSeparateCode` | worker.js:109-133 | the worker's `seperateCode`: the pattern spans lines and each piece is tagged by `test` on the shared global pattern, whose `lastIndex` carries over from one piece to the next |
| `Segmenter.TestGlobal` | worker.js:117 | `test` on a global pattern succeeds exactly when a match starts at or after `lastIndex`; success leaves `lastIndex` after it and failure resets it to 0 |
| `Segmenter.WorkerClassifyFirst` | worker.js:115-120 | in "first" mode the worker's classification rewrites nothing either |
| `Blocks.FindBlockEnd` | etemplate.js:808-842 | the index is the first segment that brings the brace counter of the block back to zero; failing that, the opener with its non-zero counter, or the end of the arrays when the counter never left zero |
| `Blocks.OpenerEnd` | etemplate.js:808-842 | for a directive opener the end lies inside the arrays, and the counter is zero exactly when a closing segment exists |
| `Blocks.OpenBalance` | etemplate.js:813-837 | once a directive opens a block, the counter stays non-zero until a segment closes it |
| `Blocks.BraceStepAsIncludes` | etemplate.js:816-819 | the counter moves by +1 for a segment holding `{` and -1 for one holding `}`, whatever the number of braces |
| `Blocks.MakeSyncBlock` | etemplate.js:770-806 | the ids are those of `SyncFrom` on the group ends `findBlockEnd` gives |
| `Blocks.SyncGroups` | etemplate.js:770-806 | ids start at 0 and step by 0 or 1; a group opened by a non-output directive runs to its block end, and every other group is one segment |
| `Blocks.SyncSteps` | etemplate.js:777-804 | ids never decrease and step by at most one, so every group is a contiguous run |
| `Blocks.EachBlock` | etemplate.js:844-891 | the script and end index are those of `BlockScript` and `EachBlockEnd` |
| `Blocks.BlockScript` | etemplate.js:844-891 | unless the opener balances itself, a directive-opened script starts with the accumulator declaration `let eTemplateInterpreted='';` and every such script ends by returning the accumulator |
| `Blocks.EachBlockAgrees` | etemplate.js:844-891 | for a balanced block `eachBlock` stops where `findBlockEnd` does; for an unbalanced one `findBlockEnd` keeps the opener alone while `eachBlock` runs to the end |
| `Interpreter.BasicCodeDropsSign` | etemplate.js:1295-1301 | the sign in front of an output expression is never evaluated: `<%= e %>` and `<%- e %>` render alike |
| `Interpreter.BasicCodeShowsError` | etemplate.js:1295-1301 | an error thrown by the expression is rendered as its message |
| `Interpreter.ControlCodeMasksError` | etemplate.js:1303-1309 | whatever a block throws, the same fixed diagnostic is rendered |
| `Interpreter.ControlCodeIgnoresLayout` | etemplate.js:1303-1309 | a line break or tab anywhere in a block script does not change what it renders |
| `Interpreter.EscapedDelimiters` | etemplate.js:665-666 | a comment opener is shown as `&lt;%` and a closer as `%&gt;` |
| `Interpreter.EscapeCommentsNoClose` | etemplate.js:620-625 | a rendered literal never contains a closing delimiter |
| `Interpreter.Interpret` | etemplate.js:609-652 | the rendered units are `Interpreted`: a literal with comment delimiters escaped, an output as its value, a block as what its script returns, and the position moves past each block |
| `Interpreter.InterpretedUnits` | etemplate.js:609-652 | `interpret` renders one entry per unit |
| `Interpreter.InterpretedPerSyncId` | etemplate.js:609-652 | when every block closes, `interpret` renders exactly one entry per group id of `makeSyncBlock`, so `htmlBlock[n]` is the rendering of group `n` |
| `Interpreter.UnitIsGroup` | etemplate.js:637-640 | in a template whose blocks all close, a unit of `interpret` is a group of `makeSyncBlock` |
| `Interpreter.FindAnchorName` | etemplate.js:674-678 | the kept tag name is that of the last piece mentioning both `class=` and the sync class, or "" when none does |
| `Interpreter.LastAnchored` | etemplate.js:675-678 | the index is the last anchored piece: it is anchored and no later one is |
| `Interpreter.MarksLiteral` | etemplate.js:672-679 | a literal marks the next group exactly when one of its tags carries the sync class |
| `Interpreter.CollectRun` | etemplate.js:680-689 | the collected segments are those from the start that share its id, up to the first other id |
| `Interpreter.RunEnd` | etemplate.js:682-689 | the end is the first position past the start with another id, and every segment before it has the id |
| `Interpreter.SelectAnchored` | etemplate.js:667-691 | the first phase collects, after each marked literal, the run of segments sharing the id of the one that follows it |
| `Interpreter.RunIsGroup` | etemplate.js:680-689 | with the ids `makeSyncBlock` assigns, the run collected after a literal that ends a group is exactly the next group |
| `Interpreter.InterpretPart` | etemplate.js:654-768 | the entries are `PartFrom` of the collected segments: each unit rendered as in `interpret`, an output after a literal that opens an attribute joined to the last entry |
| `Interpreter.PartPass` | etemplate.js:697-764 | one pass of the second loop is one step of `PartNext` |
| `Interpreter.PartWithoutAttributes` | etemplate.js:694-765 | without literals that open an attribute, `interpretPart` renders exactly what `interpret` renders, unit by unit |
| `Interpreter.AttributeJoinsLastEntry` | etemplate.js:733-749 | an output right after a literal that opens an attribute joins the entry rendered before that literal instead of making a new one |
| `Interpreter.MergeValue` | etemplate.js:737-743 | the last entry grows by the value (a string becomes a pair), the others are kept, and with no entry the value is lost |
| `Anchors.InsertSync` | etemplate.js:893-1061 | the loop's result and kept `templateInClass` are those of `InsertFrom` and `ClassesKept` |
| `Anchors.InsertFrom` | etemplate.js:910-1059 | a completed run keeps one id per segment and may only grow the code list |
| `Anchors.Pass` | etemplate.js:911-1058 | a pass trims a directive and anchors it exactly when its id differs from the last one |
| `Anchors.PlaceAnchor` | etemplate.js:913-1055 | the anchor of one pass is `Anchor`: the attribute case when the literal before ends inside a tag, the tag case otherwise |
| `Anchors.PlaceAttrAnchor` | etemplate.js:931-990 | the attribute case is `AttrCase`: find the group end, collect the attribute names, then place the tokens |
| `Anchors.FindGroupEnd` | etemplate.js:935-944 | the first literal after the directive with a `>` after its first character stretches the group to the segment before it, and the group end is recomputed |
| `Anchors.CollectAttrNames` | etemplate.js:934 | the names are the one before the directive, then one for each later literal of the group that opens another attribute |
| `Anchors.LastLetterIsLastChar` | etemplate.js:921-925 | `lastLetter` is the last non-blank character of the literal, so the test asks whether the literal ends inside a tag's text |
| `Anchors.AnchorWritesToken` | etemplate.js:913-1055 | after a successful anchor some entry of the code list holds the counter token of the counter's old value |
| `Anchors.AnchorKeeps` | etemplate.js:913-1055 | an anchor keeps every solid token the code list carried |
| `Anchors.InsertCounts` | etemplate.js:893-1061 | a completed run leaves the counter at its old value plus the number of directives that open a group |
| `Anchors.AnchorSitesAscend` | etemplate.js:913 | the anchored positions are directives, each after the one before |
| `Anchors.InsertKeeps` | etemplate.js:893-1061 | a completed run keeps every solid token the code list carried before it |
| `Anchors.InsertNumbers` | etemplate.js:893-1061 | with a plain sync class, a completed run leaves the token of every number it handed out: later anchors never cut an earlier one |
| `Anchors.InsertKeepsNumbered` | etemplate.js:893-1061 | a completed run keeps every counter token the code list carried before it |
| `Anchors.PassClasses` | etemplate.js:955-957 | a pass leaves `templateInClass` alone or writes the entry at the counter's old value, and the counter never goes back |
| `Anchors.ClassesKept` | etemplate.js:956 | the `templateInClass` a run leaves, whether it completes or throws: the completed run's map, entries below the starting counter untouched, new entries numbered from it on |
| `Anchors.AttrAnchor` | etemplate.js:951-983 | a completed attribute anchor advances the counter by one, keeps the length of the code list and one id per segment, and writes at most the as-written `templateInClass` entry at the counter's old value |
| `Anchors.ClassValueAsWrittenDiffers` | etemplate.js:956 | for `class="<%=x%>"` the kept value is the error of an empty expression while the group renders `x` |
| `Anchors.ClassValueAsWrittenCutsExpression` | etemplate.js:956 | for `=e` the kept value is that of `e` without its first character |
| `Anchors.ClassValueIsRendered` | etemplate.js:956 | the corrected kept value is what the group renders |
| `ElementSync.DecodeClasses` | etemplate.js:160-169 | the token loop's result is `Decode` of the class list: the last `${eClass}_` token gives the attributes, the last `${eClass}Cnt` token the number |
| `ElementSync.DecodeUnmarked` | etemplate.js:160-169 | classes without the marker prefixes change nothing |
| `ElementSync.CntTokenDecodes` | etemplate.js:166-168 | `${eClass}Cnt${n}` reads back as `n` and says nothing about attributes |
| `ElementSync.AttrTokenDecodes` | etemplate.js:162-165 | `${eClass}_${attrs.join("+")}` reads back as exactly `attrs` |
| `ElementSync.AttrAnchorRoundTrip` | etemplate.js:955 | the classes an attribute anchor writes decode in `sync()` to exactly its attribute names and number |
| `ElementSync.PlainAnchorRoundTrip` | etemplate.js:986 | the classes a span or tag anchor writes decode to content position and its number |
| `ElementSync.CntTokensDistinct` | etemplate.js:955 | different anchors carry different counter tokens |
| `ElementSync.InsertTokens` | etemplate.js:893-1061 | a completed run hands out `syncCnt .. syncCnt + k - 1`, one per opening directive; with a plain sync class every one of those tokens is in the final code and no two are equal |
| `ElementSync.PatchElement` | etemplate.js:170-192 | the write step is `Patch`: attribute writes in attribute position, stopping at the first call that throws, otherwise the content replaced by the entry |
| `ElementSync.SyncElement` | etemplate.js:152-193 | one element is read, then written, as `Patch` of its decoded tokens |
| `ElementSync.RemoveClass` | etemplate.js:174 | once the token is accepted, the result holds exactly the classes other than the token |
| `ElementSync.AddClass` | etemplate.js:175 | once the token is accepted, the result holds exactly the old classes and the token |
| `ElementSync.TokenError` | etemplate.js:174-180 | `classList.remove` and `classList.add` throw exactly on a token that is empty (a SyntaxError) or holds ASCII white space (an InvalidCharacterError) |
| `ElementSync.WriteAttr` | etemplate.js:172-187 | a non-`class` attribute is set and nothing throws; a `class` write throws exactly when the kept class or the new value is refused, and otherwise leaves the old classes without the kept one plus the new value, and keeps the new value under the anchor's number; a throw leaves `templateInClass` as it was |
| `ElementSync.WriteAttrsSetsEach` | etemplate.js:183-187 | when no call throws, every attribute named once gets its value, whether or not it already held it |
| `ElementSync.WriteAttrsSetsClass` | etemplate.js:172-181 | when no call throws, a `class` name written once leaves its value in the class list and in `templateInClass` under the anchor's number |
| `ElementSync.WriteAttrsClassThrows` | etemplate.js:170-181 | with one `class` name, the writes throw exactly when the kept class or the new value is refused, and a refused kept class gives its own error, since `remove` runs first |
| `ElementSync.WriteAttrsKeepsClasses` | etemplate.js:182-188 | without a `class` name nothing throws, and the class list and `templateInClass` stay as they were |
| `ElementSync.WriteAttrsKeeps` | etemplate.js:170-189 | writes to other attributes leave an attribute alone, whether or not a later call throws |
| `ElementSync.RewriteShownClass` | etemplate.js:172-181 | writing again the class value that the element shows last and that is kept for its anchor changes nothing |
| `ElementSync.AsWrittenKeepsMessage` | etemplate.js:956 | for `class="<%=x%>"` the as-written kept value is the message of the error of the cut expression, the corrected one the rendered value |
| `ElementSync.AsWrittenClassThrows` | etemplate.js:174 | that kept message holds blanks, so the first `sync()` of the element throws an InvalidCharacterError at `classList.remove` |
| `ElementSync.CorrectedClassKeeps` | etemplate.js:172-181 | with the corrected kept value the same write goes through and leaves the element as it was |
| `Css.StandardReturnTrims` | etemplate.js:1601-1603 | text without a carriage return and without two newlines in a row only loses the white space at its two ends: the result is `trim` of it, one piece of the text with only white space around it (for any text the result neither starts nor ends with white space, by the contract of `StandardReturn`) |
| `Css.StandardReturnKeepsNormal` | etemplate.js:1601-1603 | text already in the normal form is left as it is |
| `Css.ParseRules` | etemplate.js:1579-1599 | the result is `parseRules` read through its fragments, or the TypeError of a leading `base64,` continuation |
| `Css.ClassifyColon` | etemplate.js:1590-1596 | a fragment with a colon yields the trimmed text before its first colon and the trimmed rest, kept only when both are non-empty |
| `Css.ClassifyColonFree` | etemplate.js:1586-1589 | a colon-free fragment is a continuation exactly when it starts with `base64,` once trimmed |
| `Css.ReadFragmentsFails` | etemplate.js:1586-1588 | `parseRules` fails exactly when a `base64,` continuation comes before any declaration is read |
| `Css.ParseRulesWellRead` | etemplate.js:1579-1599 | every declaration returned has a non-empty, colon-free, trimmed key and a non-empty value |
| `Css.CreateTextStyle` | etemplate.js:1255-1293 | the text is `TextStyle` of the rules, or the TypeError of a group holding a nested rule without declarations |
| `Css.TextStyleSucceeds` | etemplate.js:1278-1289 | `createTextStyle` throws exactly when some `@media` or `@supports` group holds a nested rule without declarations |
| `Css.DeclLinesRoundTrip` | etemplate.js:1265-1269 | the body written for a style rule is read back by `parseRules` as exactly its declarations |
| `Css.StyleTextRoundTrip` | etemplate.js:1255-1293 | between the first `{` and the closing `}` of a written style rule lies a body that `parseRules` reads back as the rule's declarations |
| `Css.ParseCss` | etemplate.js:1518-1577 | the rules are those of `ParseCssOf`: none for an undefined text; otherwise the imports, the keyframes, then the general rules, or the first exception |
| `Css.ParseCssFrom` | etemplate.js:1521-1576 | comments removed, then the import, keyframes and general passes in that order |
| `Css.PushGeneral` | etemplate.js:1553-1575 | the general pass pushes the rule of each match in turn and stops at the first exception |
| `Css.ParseGeneralRule` | etemplate.js:1556-1574 | the selector is the normalised head; `@media`/`@supports` make a group of the rules parsed from the inner text, any other selector a style rule |
| `Css.AssembleLayout` | etemplate.js:1518-1577 | one rule per `@import`, in order, then one per `@keyframes`, then one per general match; the call succeeds exactly when every general match does |
| `Css.ParseCssOk` | etemplate.js:1518-1577 | every rule object is well formed, and the only exception is the TypeError of reading `undefined` |
| `Css.GroupTextSmaller` | etemplate.js:1569 | the nested text of a group is smaller than the text it came from, so the recursion ends |
| `Css.ArrayFind` | etemplate.js:1605-1614 | the answer is `LastKeyIndex`: the last element with the tuple's key, or -1 |
| `Css.LastKeyIndexFinds` | etemplate.js:1605-1614 | -1 exactly when the tuple is not in the list, and otherwise the index of its last occurrence |
| `Css.TupleKeyInjective` | etemplate.js:1609 | different integer tuples become different object keys |
| `CssSync.FindFirst` | etemplate.js:263-269 | the search loop returns `First`: the first index satisfying the test, or -1 |
| `CssSync.FindFrame` | etemplate.js:237-245 | the keyframes search returns `FrameSearch`: the first old keyframes rule with the name, -1, or the exception of a rule without `styles` |
| `CssSync.FrameSearchFails` | etemplate.js:237-245 | the search throws exactly when a rule without `styles` comes before any old keyframes rule with the name |
| `CssSync.RemovePropDrops` | etemplate.js:400 | after `removeProperty` the key is gone and no key occurs twice |
| `CssSync.SetPropSpec` | etemplate.js:361 | after `setProperty` with a non-empty value the key holds exactly that value and every other property stays |
| `CssSync.MatchAll` | etemplate.js:344-368 | the loop over new declarations is `MatchDecls` |
| `CssSync.DiscoverSubsAll` | etemplate.js:271-313 | the loop over the nested rules of a matched group is `DiscoverSubs` |
| `CssSync.DiscoverFramesOne` | etemplate.js:236-258 | the keyframes case is `DiscoverFrames`: an old rule with the name is replaced when it differs beyond white space, and recorded; otherwise the text is queued |
| `CssSync.DiscoverAll` | etemplate.js:229-380 | the loop over the new rules is `Discover` |
| `CssSync.RemoveAll` | etemplate.js:415-421 | the loop over an old rule's declarations is `Removed` |
| `CssSync.DeleteEmpty` | etemplate.js:423-425 | the emptiness check is `DeleteIfEmpty` |
| `CssSync.PruneSubsAll` | etemplate.js:394-406 | the loop over the nested rules of an old group is `PrunedSubs` |
| `CssSync.PruneAll` | etemplate.js:386-434 | the deletion loop is `Pruned` |
| `CssSync.ApplyAll` | etemplate.js:436-453 | the addition loop is `Applied` |
| `CssSync.SyncRules` | etemplate.js:228-453 | the three passes are `SyncRun` |
| `CssSync.DiscoverRewrites` | etemplate.js:229-380 | the first pass makes only rewrites: a property is written only when its value changed, and an old keyframes rule is replaced only when its text changed beyond white space |
| `CssSync.MatchedOrQueued` | etemplate.js:344-368 | each new declaration is recorded against the first old declaration with its key, or queued when there is none |
| `CssSync.ChangedValueWritten` | etemplate.js:356-363 | a changed value is written in place and nothing else is called |
| `CssSync.PrunedCalls` | etemplate.js:383-434 | the deletion pass keeps `updatedRules` and `toAdd`; it only removes unrecorded declarations and deletes old plain rules and groups, from the last rule to the first; keyframes and import rules are never deleted |
| `CssSync.RemovedCalls` | etemplate.js:415-421 | if nothing is thrown, the calls on a rule's declarations are exactly the removals owed to the unrecorded ones |
| `CssSync.PruneStyleDeletes` | etemplate.js:411-426 | if nothing is thrown, `deleteRule(i)` is called exactly when the live rule has no declaration left |
| `CssSync.PruneGroupDeletes` | etemplate.js:390-410 | if nothing is thrown, `deleteRule(i)` is called exactly when the live group has no nested rule left |
| `CssSync.PruneSubExact` | etemplate.js:394-406 | if nothing is thrown, a nested rule's calls are its owed removals, then `deleteRule(j)` exactly when its live style is empty |
| `CssSync.PruneRuleRemoves` | etemplate.js:386-434 | if nothing is thrown, every unrecorded declaration of the old rule (or of its nested styles) is removed |
| `CssSync.PrunedRemoves` | etemplate.js:386-434 | if nothing is thrown, every old declaration the first pass did not record gets a `removeProperty` call |
| `CssSync.SyncRemovesUnmatched` | etemplate.js:228-434 | a run that throws nothing has removed every old declaration that no new declaration was matched with |
| `CssSync.AppliedCalls` | etemplate.js:436-453 | the last pass makes the calls of `toAdd` in order, one per entry, until one throws |
| `CssSync.SyncCalls` | etemplate.js:228-453 | rewrites of changed values first, then removals and deletions from the last old rule to the first, then the queued additions |
| `CssSync.RenamedPropertyThrows` | etemplate.js:434-453 | renaming the only property of a rule makes the run throw: the rule is deleted, then the new property is set on the missing rule |
| `CssSync.RenamedPropertyFixed` | etemplate.js:434-453 | with the corrected last pass the same renaming throws nothing and leaves the rule holding the new property only |
| `CssSync.DiscoverFresh` | etemplate.js:364-367 | the first pass queues only declarations whose key the old rule it was matched with lacks |
| `CssSync.FixedKeepsQueued` | etemplate.js:386-434 | in the corrected run the deletion pass never removes a queued declaration from the rule it was set on |
| `Engine.LeadShape` | etemplate.js:98-103 | the prepared segments open with a literal, keep the originals behind it, and keep one id per segment starting at 0 and stepping by at most one |
| `Engine.Prepare` | etemplate.js:94-103 | segmentation, grouping and the leading literal give `PreparedOf` |
| `Engine.Compile` | etemplate.js:94-108 | the anchoring run and the kept `templateInClass` are `Compiled` and `ClassesAfter` |
| `Engine.RenderPage` | etemplate.js:94-113 | the rendered page is `Rendered`: the anchored page kept and its units interpreted |
| `Engine.ParseStyle` | etemplate.js:211-212 | the rendered style text is parsed by `parseCSS` |
| `Engine.Loaded` | etemplate.js:1093-1112 | the style segments are always kept; the parsed rules are kept when parsing succeeds; the sheet is rebuilt, with an empty call log, only when they serialise to non-empty text |
| `Engine.LoadStyle` | etemplate.js:1093-1112 | `changeCss` once the styles are fetched is `Loaded` |
| `Engine.Resynced` | etemplate.js:205-209 | without a directive among the style segments nothing changes |
| `Engine.SyncStyle` | etemplate.js:205-456 | `syncCss()` on the style state is `Resynced` |
| `Engine.ResyncedEffect` | etemplate.js:205-456 | the style segments stay; the kept rules become the parsed ones only when nothing was thrown; the log grows by exactly the differ's calls |
| `Engine.ETemplate.constructor` | etemplate.js:13-30 | a fresh engine keeps no page, no styles and a zero counter |
| `Engine.ETemplate.Render` | etemplate.js:40-61 | the page fields become the rendered page; on a thrown TypeError the counter is reset and the `templateInClass` entries written before the throw stay; the style fields never change |
| `Engine.ETemplate.LoadCss` | etemplate.js:1090-1113 | the style fields become `Loaded` of the old ones and the page fields stay |
| `Engine.ETemplate.SyncCss` | etemplate.js:205-456 | the style fields become `Resynced` of the old ones and the page fields stay |
| `Worker.OnlyPathIsPrefix` | worker.js:221-225 | `getOnlyPath(url)` is the url up to, and without, its last "/", or "" when it has none |
| `Worker.SplitUrlFree` | worker.js:226-231 | no piece of `splitUrl(url)` holds a "/" |
| `Worker.TrimEmptyShape` | worker.js:226-231 | at most one empty piece is removed at each end, and it is removed whenever it is there |
| `Worker.SplitUrlFramed` | worker.js:226-231 | "/" + the joined pieces + "/" splits back into the pieces |
| `Worker.DotPieces` | worker.js:237-244 | each matching host piece dots the url piece at its place and each other one adds a ".." step |
| `Worker.MarkDots` | worker.js:246-248 | each "." followed by "." is marked for removal |
| `Worker.SweepMarks` | worker.js:249-255 | splicing from the back removes the marked pieces and every "." but the first |
| `Worker.SweptClean` | worker.js:249-255 | after the splice loop no marker is left and a "." can only be the first piece |
| `Worker.RelativeUrl` | worker.js:232-257 | `getRelativeUrl` always answers a string that starts and ends with "/" |
| `Worker.RelativeUrlUnderHost` | worker.js:232-257 | a path inside the host's directory becomes the part below the host, with a "/" on each side |
| `Worker.ComparedPath` | worker.js:258-278 | `getComparedPath` always answers a non-empty string ending with "/" |
| `Worker.ComparedUnderHost` | worker.js:258-278 | for a file below the page's own directory, the compared path is that directory relative to the host, ending in "/" |
| `Worker.CompareUrlsCases` | worker.js:290-301 | a bare name, a rooted url and a "./" url are put behind the base; exactly the other urls with a "/", except "../" ones, give `undefined` |
| `Worker.CompareUrlsDotDot` | worker.js:294-300 | a "../" url is resolved against the base with its last two pieces popped |
| `Worker.CompareUrlsParentOfRooted` | worker.js:294-300 | against a rooted base, a "../" url lands in the base's parent directory, written relative |
| `Worker.CompareUrlsParentOfRelative` | worker.js:294-300 | against a two-level relative base the "." is glued to the first directory: "../x.png" against "css/sub/" becomes ".css/x.png" |
| `Worker.ReplaceRelativeUrl` | worker.js:279-305 | a style holding "base64," or "http" comes back unchanged |
| `Worker.RelinkedNames` | worker.js:281-291 | each match whose url has no "/" gets the base put in front, and the rest of the text is kept |
| `Worker.UnlinkedUnchanged` | worker.js:307-335 | a file with no url match comes back unchanged from both rewriters |
| `Worker.MediaRoundTrip` | worker.js:364-366 | the wrapped code can be read back out of the media rule |
| `Worker.RemoveComment` | worker.js:430-433 | the result is never longer, and a text without `<!--` is unchanged |
| `Worker.CommentCut` | worker.js:430-433 | a comment is cut out together with its delimiters, and what follows is treated the same way |
| `Worker.PathWorker.constructor` | worker.js:2-12 | a fresh worker has no page url |
| `Worker.PathWorker.Visit` | worker.js:20 | `readFurther` records the page url it reads |
| `Worker.PathWorker.CurrentUrl` | worker.js:405-410 | host and file name make up the url; the file name holds no "/"; the host is empty exactly when the url has no "/", and otherwise ends with "/" |
| `Worker.PathWorker.GetRelativeUrl` | worker.js:232-257 | the answer is `RelativeUrl` of the path against the host of the kept page url |
| `Worker.PathWorker.GetComparedPath` | worker.js:258-278 | the answer is `ComparedPath` of the file against the host, both seen from the kept page url |

## Left out

- JavaScript values are modelled as strings. A rendered unit is a string and `interpretPart` entries are strings or lists of strings, so the model loses what `Array.isArray` tests on values an expression returns itself.
- Template evaluation is a pure function `eval` passed in as a parameter. Evaluation never changes state, so side effects of one directive on the next (a variable a block assigns) are not modelled.
- The delimiters are fixed at `<%`, `%>` and `<%%`. The sync class is a parameter; the numbering lemmas need a `PlainClass` (no blank, `=` or `>` in it).
- The DOM is left out. `sync()` works on one element at a time (a class list, an attribute map and a content string). The live style sheet is a list of `LiveRule`s, and every call made on it is logged.
- The style sheet `syncCss()` drives is taken to be the one built from the kept rules. Its rule indices equal those of `cssRules`, and `ToLive` approximates how the browser builds it. The search for the sheet without `href` (etemplate.js:214-220) is not modelled.
- The regular expressions of `parseCSS` are not modelled. Their matches are passed in as `Matchers`, restricted by `Tame`: removing matches never lengthens the text, and a nested match is smaller than its text.
- The rendered page is interpreted on `a.code[..|p.types|]`. Entries `insertSync` appends past the last segment have no type, and `interpret` renders nothing for them.
- Anchors.InsertSync: the rewrite of `code[]` and `sync[]` in place, and the writes to `syncCnt` and `templateInClass`, are modelled on `seq`/`map` values returned by a loop over the segments. Update in place and aliasing of those arrays (the same `sync` array is later `htmlSync`) are not captured.
- Interpreter.InterpretPart: the `htmlBlock` merge of an attribute value into the last entry is modelled on a sequence of `Entry` values. The in-place update of the array is not captured.
- `console.log` (etemplate.js:794-797, 1003-1004) is dropped; `makeSyncBlock` only logs an unbalanced block, so the ids are unaffected.
- Fetching, includes and modules are left out because they need the network: `render`'s fetch and title handling, the `changeCss` file combining (`combineCss`), `insertNestedHTML`, `insertNestedCSS`, `seperateImport`, `insertModules` (which also evaluates code), `findImport`, `findInclude`, `getTextFromFiles`, `renderPart`, and in the worker `readFurther` (except the url it records), `changeCss`, `combineCss`, `insertNestedHTML`, `insertNestedCSS`, `findImport` and the `onmessage` handler. `Engine.ETemplate.Render` starts from the page text after includes; `Engine.ETemplate.LoadCss` starts from the combined style text.
- The page title (`titleCode`, `getTitle`, `changeTitle`), the worker's `metaArray` and `readMeta`, scrolling, `removeAllChildNodes`, `appendHtml`, `appendCss`, `getObjectType`, the `querySelectorAll` element lookups of `sync()` and the body display switch are DOM effects and are left out.
- ElementSync.SyncElement: one element is modelled. The loop of `sync()` over all anchored elements (etemplate.js:151-194) is left out with the `querySelectorAll` lookup; a `thrown` error in the result marks where that loop, and `sync()` with its `syncCss()` call, would stop.
- ElementSync.WriteAttr: `setAttribute` also throws an InvalidCharacterError for an attribute name it refuses (an empty name, for instance); the model sets any name. Names come from the anchor's class token, so they hold no white space.
- The input loop of `sync()` (etemplate.js:129-145) is left out. It runs `controlCode` for its side effect on template variables, which the pure evaluator cannot show.
- `new URL(...)` resolution (worker.js:60, 203), `window.location` in the engine's `currentUrl` (etemplate.js:1464-1473) and the mouse handlers (etemplate.js:1637-1642) are browser services and are left out.
- The `case 7:` branch of the deletion pass (etemplate.js:427-432) compares a type string with a number and never runs. The model keeps this behaviour, so old keyframes and import rules are never deleted.
- Worker.ReplaceRelativeUrl: the url regular expressions of `replaceRelativeUrl` and `htmlReplaceRelativeUrl` are not modelled. Their matches come from a `cut` function passed in, so the contract says what happens to the matches, not which substrings match.
- Worker.CompareUrlsParentOfRelative: `compareUrls` writes "." in front of the popped base without a "/" (worker.js:298); the model keeps that text as it is.

## Findings

| source | as written | input that shows it | evidently intended | confidence | as-written member | corrected member |
|---|---|---|---|---|---|---|
| etemplate.js:956 | the value kept for a class template removes the first `=` of the directive, and `basicCode` then drops the character after it too, so the first character of the expression is lost | `<div class="<%=x%>">`: the directive text is `=x`, the kept value evaluates an empty expression and holds a SyntaxError message, while the page shows the value of `x` | keep what the directive renders, `basicCode` of the directive text | not executed | `Anchors.ClassValueAsWrittenDiffers` | `Anchors.ClassValueIsRendered` |
| etemplate.js:434-453 | queued declarations are set at the NEW rule index after the deletion pass has removed and deleted rules, on a sheet that still has the old layout | old rules `a { x: 1 }`, new rules `a { y: 2 }`: `x` is removed, the emptied rule is deleted, and `setProperty` on rule 0 reads a rule that is gone and throws | set each queued declaration on the old rule it was matched with, before the deletion pass, so the rule keeps the new property | not executed | `CssSync.RenamedPropertyThrows` | `CssSync.RenamedPropertyFixed` |

The engine model runs the code as written in both cases. `Anchors.AttrAnchor` keeps the as-written class value. For `class="<%=x%>"` that value is the message of a SyntaxError, which holds blanks: on the first `sync()`, `classList.remove` throws an InvalidCharacterError for it (`ElementSync.AsWrittenClassThrows`), so that element's class and the attributes after it are not written, the elements after it are not patched and `syncCss()` is not reached; the corrected kept value lets the write through (`ElementSync.CorrectedClassKeeps`). `Engine.ETemplate.SyncCss` runs the as-written `CssSync.SyncRun`. The corrected definitions (`Anchors.ClassValue`, `CssSync.FixedSyncRun`) carry the proofs of the intended behaviour. `CssSync.FixedKeepsQueued` adds that the corrected deletion pass never removes a declaration it has just set.
