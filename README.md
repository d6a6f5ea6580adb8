# OTML parser, modelled in Dafny

OTML is the project's own indentation-based configuration language, similar
to YAML. `src/framework/otml/otmlparser.cpp` reads an OTML document in two
strictly sequential phases.

1. **Line parser** (`OTMLParser`). It reads the input one line at a time.
   - Each line gets a depth: its leading spaces divided by two, with tabs and
     odd indentation rejected.
   - The depth may go one level deeper, stay the same or climb any number of
     levels. Any other change is an error.
   - Each line that is neither blank nor a comment becomes one node. The node
     is appended as the last child of the current parent.
   - A line splits into a tag and a value in one of these forms: a list item
     `- v`, a pair `key: v`, a bare `key`, a URL used as a key, an inline
     list `[a, b]`, the null marker `~`, or a block scalar: clip `|`, strip
     `|-` or keep `|+`.
     A block scalar reads ahead over the deeper lines and the blank lines,
     un-reads the first non-blank line that is not deeper, and then chomps
     its trailing newlines.
2. **Alias pass** (`resolveVariablesRecursive` and its helpers). It walks
   the finished tree one level at a time.
   - It first registers the level's `&name: value` definitions in source
     order, into a copy of the inherited scope. At the root it also
     registers them into the document's global registry.
   - It then rewrites each other child whose value is a `$name` reference,
     and descends into every child.
   - Undefined and circular references, and nameless definitions, become
     diagnostics and never abort the pass.

The Dafny project has one module per concern.

- `Text` (text.dfy) holds the string helpers the parser calls:
  - white-space trimming;
  - `find` from a position;
  - splitting at a character;
  - decimal printing of the line number.
- `OtmlTree` (otml_tree.dfy) holds the node arena:
  - nodes live in a `seq<Node>` with the root at index 0;
  - each node records its parent index and its ordered children;
  - `WellFormed`, `Level` and `Ancestor` describe the arena;
  - `Attach` appends a node under a parent;
  - `Document` is the class that owns the arena and the global registry.
- `OtmlSyntax` (otml_syntax.dfy) holds the pure line-level definitions:
  - line depth and its errors;
  - the tag/value split;
  - value kinds;
  - the block-scalar read-ahead;
  - chomping.
- `OtmlParser` (otml_parser.dfy) holds the stateful parser:
  - the `Parser` class, whose fields are the source's `currentDepth`,
    `currentLine`, `currentParent`, `previousNode` and the input cursor;
  - the functional specification the class's methods are proved against:
    `NodeStep` for one node, `LineStep` for one line, and `Run` for the
    rest of the input.
- `OtmlAlias` (otml_alias.dfy) holds the pure alias helpers, from
  `stripQuotes` to `resolveAliasValue`.
- `OtmlResolver` (otml_resolver.dfy) holds the alias pass. It is imperative
  over the `Document`, and is proved against three specifications:
  - `Resolved`: the final tree;
  - `LevelPass`: the scope and registry each level builds;
  - `LogOf`: the diagnostics, in order.

## Model

| member | source | states |
|---|---|---|
| Text.Trim | src/framework/otml/otmlparser.cpp:352-353 | trimming gives the empty string exactly when the input is blank; otherwise the result neither starts nor ends with white space |
| Text.TrimPadded | src/framework/otml/otmlparser.cpp:352-353 | a core that does not start or end with white space, padded on both sides with blanks, trims back to the core |
| Text.TrimIdempotent | src/framework/otml/otmlparser.cpp:352-353 | trimming twice is trimming once |
| Text.TrimSubsequence | src/framework/otml/otmlparser.cpp:352-353 | trimming introduces no character that was not in the input |
| Text.FindFrom | src/framework/otml/otmlparser.cpp:323-326 | `find` returns the first occurrence at or after the start position, with none before it; no result means there is no occurrence at or after the start |
| Text.Split | src/framework/otml/otmlparser.cpp:411-412 | splitting gives at least one piece; no piece contains the separator; joining the pieces with the separator rebuilds the text |
| Text.SplitJoin | src/framework/otml/otmlparser.cpp:411-412 | splitting the join of separator-free pieces gives the pieces back |
| Text.NatToString | src/framework/otml/otmlparser.cpp:404 | the line number prints as one or more decimal digits with no leading zero |
| Text.NatToStringRoundTrip | src/framework/otml/otmlparser.cpp:404 | the printed line number reads back as the same number |
| OtmlTree.Attach | src/framework/otml/otmlparser.cpp:421-423 | appending a node under an existing parent keeps the arena well formed; the arena grows by exactly that node, whose parent is `p`; the parent's child list gains the new index at its end; every other node is unchanged |
| OtmlTree.AttachParents | src/framework/otml/otmlparser.cpp:421-423 | after attaching, every node's parent precedes it and lists it among its children; the new node's parent is the current parent |
| OtmlTree.AttachChildren | src/framework/otml/otmlparser.cpp:421-423 | after attaching, every child index follows its parent and records that parent |
| OtmlTree.AttachIncreasing | src/framework/otml/otmlparser.cpp:421-423 | after attaching, every node's children are still in source order, with the new node last |
| OtmlTree.AttachLevel | src/framework/otml/otmlparser.cpp:421-423 | the new node is one level below its parent, and every other node keeps its level |
| OtmlTree.Ancestor | src/framework/otml/otmlparser.cpp:285-287 | walking `k` steps up the parent map from a node at level `l >= k` ends at a node of level `l - k` that the start descends from |
| OtmlTree.AncestorStep | src/framework/otml/otmlparser.cpp:286-287 | one more step of the walk is one more parent lookup |
| OtmlTree.DescendantTransitive | src/framework/otml/otmlparser.cpp:421-423 | the descendant relation that `parentMap` induces is transitive |
| OtmlTree.Document.constructor | src/framework/otml/otmlparser.cpp:206-208 | a fresh document holds only the root node and an empty global registry |
| OtmlSyntax.LeadingSpacesMeaning | src/framework/otml/otmlparser.cpp:239-245 | every character before the counted spaces is a space, and the character after them is not |
| OtmlSyntax.LeadingSpaces | src/framework/otml/otmlparser.cpp:239-245 | the count of leading spaces stops at the line's end or at a character other than a space, and stops before the end of any non-blank line |
| OtmlSyntax.LineDepth | src/framework/otml/otmlparser.cpp:232-261 | the depth of a line: 0 for a blank line; otherwise, unless multilining deeper than the current depth, the tab error, then the odd-indent error, and else half the leading spaces |
| OtmlSyntax.LineDepthMeaning | src/framework/otml/otmlparser.cpp:232-261 | a blank line has depth 0; otherwise the depth is half the leading spaces. Unless multilining deeper than the current depth, a tab after the spaces fails as "tabs", else an odd space count fails as "every 2 spaces"; both directions are stated |
| OtmlSyntax.IndentError | src/framework/otml/otmlparser.cpp:250-257 | the tab error is raised exactly when a tab follows the spaces; the odd-indent error exactly when no tab follows and the count is odd |
| OtmlSyntax.TabsRejected | src/framework/otml/otmlparser.cpp:250-253 | a tab after the leading spaces is always rejected for a normal line, and for a block line that is not deeper than the current depth |
| OtmlSyntax.StripLineEndMeaning | src/framework/otml/otmlparser.cpp:307-310 | the right trim keeps a prefix of the line that does not end in space, tab or CR, and drops only such characters |
| OtmlSyntax.IsComment | src/framework/otml/otmlparser.cpp:277-279 | a trimmed line starting with `//` or `#` is a comment |
| OtmlSyntax.IsUrl | src/framework/otml/otmlparser.cpp:312-313 | a line is a URL key exactly when it starts with `http://` or `https://` |
| OtmlSyntax.SchemeEnd | src/framework/otml/otmlparser.cpp:323-324 | on a URL line the first `://` is the one ending the scheme |
| OtmlSyntax.SeparatorPos | src/framework/otml/otmlparser.cpp:321-335 | on a plain line the separator is the first `:`, and one exists exactly when the line has a `:`; on a URL line it is the first `": "` after the scheme; only when there is no `": "` after the scheme is it the first `":\t"` there; with neither there is no separator |
| OtmlSyntax.SplitLine | src/framework/otml/otmlparser.cpp:307-353 | after the right trim and the split, the tag and the value both come out trimmed |
| OtmlSyntax.SplitFields | src/framework/otml/otmlparser.cpp:312-353 | the split: a URL ending in `:` is a key; a line starting with `-` is a list item; otherwise the line splits at its separator, or is all tag; `unique` is set for the URL key or when a separator exists |
| OtmlSyntax.SplitUrlKey | src/framework/otml/otmlparser.cpp:312-317 | a URL ending in `:` yields the trimmed URL without that colon as tag, no value, and unique |
| OtmlSyntax.SplitListItem | src/framework/otml/otmlparser.cpp:337-340 | a line starting with `-` yields an empty tag and the trimmed rest as value; it is unique exactly when the line holds a `:` (so `- a: b` is unique) |
| OtmlSyntax.SplitFirstColon | src/framework/otml/otmlparser.cpp:334-345 | a plain line with a first `:` at `k` splits into the trimmed text before `k` as tag and the trimmed text after it as value, and is unique |
| OtmlSyntax.SplitBareKey | src/framework/otml/otmlparser.cpp:346-349 | a plain line with no `:` is all tag, with no value, and not unique |
| OtmlSyntax.SplitUrlPair | src/framework/otml/otmlparser.cpp:321-349 | a URL line not ending in `:` splits at its separator when it has one; otherwise it is all tag and not unique |
| OtmlSyntax.ParseValue | src/framework/otml/otmlparser.cpp:406-418 | a value is null exactly when it is `~`; a list exactly when it is not `~` and starts with `[` and ends with `]`; any other value is kept as the scalar text |
| OtmlSyntax.IsBlockIndicator | src/framework/otml/otmlparser.cpp:356 | exactly the three indicators keep, strip and clip start a block scalar |
| OtmlSyntax.ListInterior | src/framework/otml/otmlparser.cpp:411 | the text between the brackets; a one-character value gives the empty text, as the wrapped-around length does |
| OtmlSyntax.ParseValueItems | src/framework/otml/otmlparser.cpp:410-416 | a list has one entry per comma-separated piece of the interior, in order, each the trimmed piece; no entry holds a comma or surrounding white space |
| OtmlSyntax.TrimAll | src/framework/otml/otmlparser.cpp:413-414 | every token is trimmed, and the order and count are kept |
| OtmlSyntax.BlockLineRead | src/framework/otml/otmlparser.cpp:362-378 | a block line deeper than the node adds itself minus the first `(depth+1)*2` characters plus a newline; a blank line adds just a newline; any other line is shallow and passes the indentation checks |
| OtmlSyntax.BlockLoop | src/framework/otml/otmlparser.cpp:359-379 | the do-while loop as written: each pass reads a line (an empty one at end of input), fails on its indentation error, stops with a rewind at a non-blank line that is not deeper, and otherwise appends a newline, preceded for a deeper line by its text past the first `(depth+1)*2` characters, until the input ends |
| OtmlSyntax.BlockExtent | src/framework/otml/otmlparser.cpp:356-379 | the block takes a run of lines that are not shallow and stops at the end of input or at a shallow, well-indented line, which is left unread; the line counter advances by the lines taken |
| OtmlSyntax.BlockExtentTakes | src/framework/otml/otmlparser.cpp:359-379 | any run of non-shallow lines ended by the end of input or a shallow, well-indented line is the extent the block takes |
| OtmlSyntax.BlockExtentFails | src/framework/otml/otmlparser.cpp:359-379 | the first shallow line after a run of non-shallow lines that breaks the indentation rules fails the whole block with that line's error |
| OtmlSyntax.BlockLoopTurn | src/framework/otml/otmlparser.cpp:359-379 | one pass of the do-while loop: an indentation error fails; a non-blank shallow line stops with the line un-read; otherwise the text grows by the line's contribution and the loop continues unless the input is exhausted |
| OtmlSyntax.BlockLoopTakes | src/framework/otml/otmlparser.cpp:365-366 | taking a non-shallow line appends its block text and moves on by one line |
| OtmlSyntax.BlockLoopStops | src/framework/otml/otmlparser.cpp:368-376 | a shallow line ends the loop with what was gathered, rewinding to that line, unless it breaks the indentation rules |
| OtmlSyntax.BlockLoopReadsBlock | src/framework/otml/otmlparser.cpp:356-379 | from any point inside the block, the loop ends exactly where the block extent says, with the block text of every line taken |
| OtmlSyntax.BlockLoopMeetsExtent | src/framework/otml/otmlparser.cpp:356-379 | the do-while loop, started with empty text, fails exactly when the extent fails and otherwise returns the block text of the extent's lines and the position after it |
| OtmlSyntax.BlockSteppedLoop | src/framework/otml/otmlparser.cpp:359-379 | one recorded loop pass either ends the loop with the recorded outcome or leaves the loop's result equal to the result from the new position |
| OtmlSyntax.StripTrailingNewlinesMeaning | src/framework/otml/otmlparser.cpp:388-390 | removing trailing newlines keeps the longest prefix that does not end in a newline, and drops only newlines |
| OtmlSyntax.Chomped | src/framework/otml/otmlparser.cpp:381-394 | the keep indicator leaves the gathered text as it is |
| OtmlSyntax.ChompedMeaning | src/framework/otml/otmlparser.cpp:381-394 | the strip indicator gives exactly the text without its trailing newlines, the clip indicator that text plus one newline; for both, a text that is empty or all newlines has no result (the out-of-range read) |
| OtmlSyntax.Chomp | src/framework/otml/otmlparser.cpp:386-394 | the in-place erase loop computes the chomped text, and reports the out-of-range read instead of performing it |
| OtmlParser.Lines | src/framework/otml/otmlparser.cpp:224-229 | the stream is a non-empty sequence of newline-free lines that joined with newlines rebuild the text |
| OtmlParser.MakeNode | src/framework/otml/otmlparser.cpp:399-419 | the node keeps the split's tag and unique flag; it is null exactly for `~`, a scalar keeps the value, a list keeps the list entries; its source is the document source, `:` and the line number |
| OtmlParser.ScanValue | src/framework/otml/otmlparser.cpp:355-397 | a value that is no block indicator is kept and reads no further line; a block never moves the cursor back before where it started |
| OtmlParser.RightTrim | src/framework/otml/otmlparser.cpp:307-310 | the pop-back loop computes the right trim |
| OtmlParser.Skipped | src/framework/otml/otmlparser.cpp:273-279 | a trimmed line is skipped when it is empty or a comment |
| OtmlParser.BuildNode | src/framework/otml/otmlparser.cpp:399-419 | the node creation, including the token loop, builds exactly the node `MakeNode` describes |
| OtmlParser.TrimTokens | src/framework/otml/otmlparser.cpp:413-415 | the token loop trims every token in order |
| OtmlParser.NodeStep | src/framework/otml/otmlparser.cpp:300-428 | parsing a node fails when there is no current parent; otherwise the new arena is the old one with exactly one node attached as the last child of the current parent, and nothing else changed; that node becomes the previous node; depth and parent stay, and a node under a parent at the current depth lands one level deeper |
| OtmlParser.LineStep | src/framework/otml/otmlparser.cpp:263-298 | a parsed line keeps the parser state consistent and never moves the cursor back |
| OtmlParser.NewParent | src/framework/otml/otmlparser.cpp:281-290 | the parent for the new depth: the previous node one level down, the ancestor as many levels up as the depth fell, the same parent at the same depth |
| OtmlParser.LineStepParses | src/framework/otml/otmlparser.cpp:263-298 | a line that is neither blank nor a comment, with a depth at most one deeper, updates depth and parent and then parses the trimmed line as a node |
| OtmlParser.Run | src/framework/otml/otmlparser.cpp:218-219 | a finished line loop has consumed the whole input and leaves a consistent state |
| OtmlParser.RunReads | src/framework/otml/otmlparser.cpp:218-219 | while input remains, one turn of the loop reads the next line and advances the line counter |
| OtmlParser.ContinueParses | src/framework/otml/otmlparser.cpp:218-219 | after a line is read, an error from parsing it ends the loop with that error; otherwise the loop goes on from the new state |
| OtmlParser.TurnKeepsRun | src/framework/otml/otmlparser.cpp:218-219 | a turn that fails fails the whole loop with its error; one that succeeds advances the cursor and leaves the loop's final outcome unchanged |
| OtmlParser.Parser.constructor | src/framework/otml/otmlparser.cpp:206-211 | a fresh parser is at depth 0 and line 0, with the root as current parent and no previous node |
| OtmlParser.Parser.GetNextLine | src/framework/otml/otmlparser.cpp:224-230 | reading advances the line counter by one and returns the next line, or an empty line at end of input; nothing else changes |
| OtmlParser.Parser.GetLineDepth | src/framework/otml/otmlparser.cpp:232-261 | the counting loop returns the line depth or indentation error `LineDepth` describes at the current depth and line |
| OtmlParser.Parser.ReadBlockScalar | src/framework/otml/otmlparser.cpp:356-379 | the read-ahead fails with the block extent's error, or returns the block text of the extent and leaves the cursor and line counter just past the lines taken; depth, parent and previous node are unchanged |
| OtmlParser.Parser.BlockTurn | src/framework/otml/otmlparser.cpp:359-379 | one pass of the do-while loop changes only the cursor and line counter, as the recorded pass says |
| OtmlParser.Parser.ParseNode | src/framework/otml/otmlparser.cpp:300-428 | parsing a node fails exactly as `NodeStep` does and otherwise leaves the parser and the arena in the state it describes |
| OtmlParser.Parser.EnterDepth | src/framework/otml/otmlparser.cpp:281-293 | one level deeper makes the previous node the parent; a shallower depth climbs that many levels; the same depth keeps the parent; the depth becomes the new one |
| OtmlParser.Parser.Climb | src/framework/otml/otmlparser.cpp:285-287 | the climbing loop ends at the ancestor `k` levels up from the current parent |
| OtmlParser.Parser.ParseLine | src/framework/otml/otmlparser.cpp:263-298 | a line is handled exactly as `LineStep` says: blank and comment lines are depth-checked and skipped, invalid depths fail, and any other line is parsed as a node |
| OtmlParser.Parser.ParseLines | src/framework/otml/otmlparser.cpp:218-219 | the line loop ends in the state `Run` gives, or with the first error it meets |
| OtmlParser.Parser.ParseTurn | src/framework/otml/otmlparser.cpp:218-219 | one turn of the loop either fails with the loop's error or advances and keeps the loop's final outcome |
| OtmlParser.Parser.ReadAndParse | src/framework/otml/otmlparser.cpp:219 | reading one line and parsing it leaves the parser as the specification's turn says |
| OtmlParser.Parser.Parse | src/framework/otml/otmlparser.cpp:213-222 | an unreadable stream fails before any change; otherwise a line error is returned unchanged; on either failure the global registry is untouched, since the alias pass never runs; a full parse runs the alias pass on the parsed tree, filling the registry and the diagnostics as the pass describes |
| OtmlAlias.StripQuotes | src/framework/otml/otmlparser.cpp:40-50 | a value wrapped in the same quote character at both ends loses exactly those two characters; any other value is unchanged |
| OtmlAlias.StripQuotesRoundTrip | src/framework/otml/otmlparser.cpp:40-50 | quoting any text and stripping the quotes gives the text back |
| OtmlAlias.NormalizeValue | src/framework/otml/otmlparser.cpp:52-56 | normalizing gives the trimmed value, or its interior when the trimmed value is quoted |
| OtmlAlias.IsAliasTag | src/framework/otml/otmlparser.cpp:58-61 | a tag defines an alias exactly when it is non-empty and starts with `&` |
| OtmlAlias.NormalizeQuoted | src/framework/otml/otmlparser.cpp:52-56 | a quoted text with blank padding normalizes to the text between the quotes |
| OtmlAlias.NormalizeAliasName | src/framework/otml/otmlparser.cpp:63-70 | the name is the tag with one leading `&` removed, trimmed; the result is already trimmed |
| OtmlAlias.ReferencedName | src/framework/otml/otmlparser.cpp:91-96 | the name a reference names is already trimmed: it is the trimmed text after `$&` when the reference starts so, and the trimmed text after `$` otherwise |
| OtmlAlias.ReferenceForms | src/framework/otml/otmlparser.cpp:91-96 | `$name` and `$&name` name the same alias |
| OtmlAlias.RemoveOne | src/framework/otml/otmlparser.cpp:78-97 | marking an unvisited defined name visited shrinks the set of defined names not yet visited, so the recursion terminates |
| OtmlAlias.ResolveAliasName | src/framework/otml/otmlparser.cpp:72-104 | an empty name is undefined; a visited name is circular; a name without a definition is undefined; a result is always a non-reference value with no diagnostic; a failure logs exactly one diagnostic |
| OtmlAlias.Define | src/framework/otml/otmlparser.cpp:90-96 | a definition is a reference exactly when its normalized value starts with `$`, and then names the referenced alias; otherwise it is the normalized value |
| OtmlAlias.ResolveAliasNameFollows | src/framework/otml/otmlparser.cpp:72-104 | the lookup equals following the definitions from the name |
| OtmlAlias.FollowChain | src/framework/otml/otmlparser.cpp:72-104 | a chain of references that ends in a plain definition, never revisiting a name, resolves to that plain value |
| OtmlAlias.FollowDetectsCycle | src/framework/otml/otmlparser.cpp:78-81 | a chain whose last reference points back into the chain or the visited set fails as circular on that name |
| OtmlAlias.FollowReportsUndefined | src/framework/otml/otmlparser.cpp:74-88 | a chain whose last reference names nothing, or an alias not defined, fails as undefined on that name |
| OtmlAlias.FollowedChain | src/framework/otml/otmlparser.cpp:72-104 | every successful lookup is explained by a reference chain from the name to a plain definition holding the result |
| OtmlAlias.ResolveAliasValue | src/framework/otml/otmlparser.cpp:106-135 | a value counts as a reference exactly when, once trimmed, it starts with `$`, names a non-empty alias, and the scope is not empty; a reference resolves as `ResolveAliasName` does from an empty visited set and logs exactly that lookup's diagnostic (`Undefined` for a name with no definition, the lookup's own `Undefined` or `Circular` otherwise); a non-reference logs nothing |
| OtmlResolver.AliasChildren | src/framework/otml/otmlparser.cpp:141-148 | the collected nodes are exactly the children whose tag starts with `&` |
| OtmlResolver.Classify | src/framework/otml/otmlparser.cpp:152-170 | how one definition is classified: nameless when its normalized name is empty; dropped when its value is a reference that fails; otherwise bound to the resolved or normalized value |
| OtmlResolver.DefineAlias | src/framework/otml/otmlparser.cpp:151-184 | one pass of the first loop: the definition classified in the scope built so far, then applied |
| OtmlResolver.AliasPass | src/framework/otml/otmlparser.cpp:151-184 | the first loop: the definitions applied in source order, each seeing the inherited scope and the definitions before it |
| OtmlResolver.ClassifyMeaning | src/framework/otml/otmlparser.cpp:151-170 | a definition with an empty name is malformed; one whose reference fails is dropped with its single diagnostic; any other binds its name to the resolved value for a reference, else to its normalized value |
| OtmlResolver.Apply | src/framework/otml/otmlparser.cpp:153-183 | only a bound name enters the scope; at the root it also enters the registry, with an override warning when the registry already had it; a malformed name logs its tag |
| OtmlResolver.AliasPassScope | src/framework/otml/otmlparser.cpp:151-184 | the scope a level builds does not depend on the registry or on being at the root; below the root the registry is untouched |
| OtmlResolver.DefineAliasExtends | src/framework/otml/otmlparser.cpp:172-175 | a definition keeps every inherited name and changes only its own name |
| OtmlResolver.AliasPassExtends | src/framework/otml/otmlparser.cpp:151-184 | a level's scope keeps every inherited name, and every name it adds or changes is defined by one of the level's `&` children |
| OtmlResolver.RootRegistry | src/framework/otml/otmlparser.cpp:172-183 | at the root, the registry holds every alias the root scope gained, with the same value, and every other entry as before |
| OtmlResolver.LevelPass | src/framework/otml/otmlparser.cpp:139-184 | what a level's first loop leaves: the scope, registry and diagnostics of its `&` children taken in source order |
| OtmlResolver.LevelScope | src/framework/otml/otmlparser.cpp:139-184 | the scope a level hands to its children: the inherited scope with the level's definitions registered |
| OtmlResolver.ScopeFrom | src/framework/otml/otmlparser.cpp:139-201 | the scope in force at a level below the start: the level scopes composed down the path from the start |
| OtmlResolver.Rewrite | src/framework/otml/otmlparser.cpp:189-197 | a child's value is replaced by the normalized resolved value only when it is a reference that resolves; otherwise the child is untouched |
| OtmlResolver.Touch | src/framework/otml/otmlparser.cpp:155-197 | the pass marks an alias definition unique and rewrites any other child; the tag and links never change |
| OtmlResolver.Marked | src/framework/otml/otmlparser.cpp:155-172 | the first loop marks exactly the definitions unique and leaves every other node as it was |
| OtmlResolver.Expected | src/framework/otml/otmlparser.cpp:137-203 | a node below the start ends touched with the scope of its parent's level; any other node is left as it was |
| OtmlResolver.Resolved | src/framework/otml/otmlparser.cpp:137-203 | the whole arena once the pass is done: every node is as `Expected` says, and the arena keeps its size |
| OtmlResolver.LogOf | src/framework/otml/otmlparser.cpp:137-203 | the diagnostics in order: the level's definitions first, then for each child its lookup and everything logged below it |
| OtmlResolver.ChildLog | src/framework/otml/otmlparser.cpp:188-201 | what one turn of the second loop logs: the child's lookup when it defines no alias, then its subtree's diagnostics |
| OtmlResolver.NoDefinitionsNoChange | src/framework/otml/otmlparser.cpp:137-203 | a tree without alias definitions comes out of the pass unchanged, the registry keeps what it had, and nothing is logged |
| OtmlResolver.LogOfBelowRoot | src/framework/otml/otmlparser.cpp:177-201 | below the root the registry is never written, and what is logged does not depend on it |
| OtmlResolver.DefineAliases | src/framework/otml/otmlparser.cpp:151-184 | the first loop marks every definition unique and ends with the scope, registry and diagnostics of processing the definitions in order |
| OtmlResolver.DefineOne | src/framework/otml/otmlparser.cpp:152-183 | one definition is marked unique and applied to the scope, registry and diagnostics |
| OtmlResolver.ClassifyDefinition | src/framework/otml/otmlparser.cpp:152-170 | the branch structure computes the classification `ClassifyMeaning` describes |
| OtmlResolver.CollectDefinitions | src/framework/otml/otmlparser.cpp:141-148 | the collecting loop gathers the `&` children in source order |
| OtmlResolver.LevelStart | src/framework/otml/otmlparser.cpp:137-184 | after the first loop the scope is the level's scope and the tree is the start of the second loop |
| OtmlResolver.RewriteChild | src/framework/otml/otmlparser.cpp:189-197 | a non-alias child is rewritten and its lookup diagnostics returned; an alias child is left alone; the registry is untouched |
| OtmlResolver.ResolveChild | src/framework/otml/otmlparser.cpp:188-201 | one turn of the second loop rewrites the child and resolves its whole subtree with the level's scope, logging the child's lookup and then its subtree's diagnostics |
| OtmlResolver.ResolveChildren | src/framework/otml/otmlparser.cpp:187-202 | the second loop leaves every node below the level resolved, keeps the registry and logs each child's diagnostics in source order |
| OtmlResolver.ResolveVariablesRecursive | src/framework/otml/otmlparser.cpp:137-203 | the pass leaves every node below the start touched with the scope of its parent's level and the rest unchanged; the registry gains the root definitions only; the diagnostics are the level's own, then each child's in order |

## Left out

- Logging: `g_logger.error` and `g_logger.warning` become a returned list of `Diagnostic` values, in the order the source emits them. Message formatting is not modelled.
- Stream mechanics: the input is the text split at `'\n'` plus a cursor.
  - `good()` is the `readable` flag.
  - `eof()` is the cursor reaching the end.
  - `tellg`/`seekg` is the cursor going back by one line.
  - A read at end of input returns an empty line.
- `OTMLException` becomes a `ParseError` value carrying the line number, with no message text.
- `OTMLNode` and `OTMLDocument` are reduced to an arena of node records (tag, value, null and unique flags, list entries, source) and a registry map.
  - `parentMap` becomes each node's parent index.
  - `addChild` is modelled as appending. Any tag-replacing behaviour of the node class is not part of this model.
  - `writeIn` stores the entries in the node's `items` list. Because of this, the alias pass never looks at list entries.
- `stdext::trim`, `stdext::split` and `unsafe_cast` are not part of this model.
  - `Text.Trim` strips ASCII white space.
  - `Text.Split` splits at every comma.
  - `Text.NatToString` prints in decimal.
- The `depth == -1` test in `parseLine` is dead code: the depth is never negative.
- The `--spaces` branch in `getLineDepth` is unreachable, because a blank line has already returned.
- The chomp loop reads `multiLineData[-1]` when the block text is empty or all newlines, for example a `|` line directly followed by a sibling. That is undefined behaviour, so the model reports `ChompUnderflow` instead of inventing a result.
- The iteration order of `unordered_map` and `unordered_set` has no effect on the result; they are modelled as `map` and `set`.
- `visited` is passed by reference in the source and by value in the model. The source erases every name it inserts before returning, so the set on exit equals the set on entry either way.
- Shared ownership and aliasing of node pointers are not modelled: each node lives once in the arena.

### Behaviour of the code worth knowing

- References are looked up in the level's scope only. The global registry is written at the root but never read during lookup.
- A `$name` value that is resolved against an empty scope is not treated as a reference at all, so it produces no diagnostic.
- `resolveAliasName` tests the visited set before it looks the name up. A name that is both visited and undefined is therefore reported as circular.
- Clip and strip blocks strip the trailing newlines only when the text has a character other than a newline; otherwise the code reads before the start of the string.
