# Verified models of the server's browser code

The Django server of this repository ships JavaScript that the browser runs. These Dafny modules model its algorithmic
parts and prove what they are for. `dafny verify dfyconfig.toml` checks everything.

- **Highlighting** (`Markup`, `HtmlText`, `PageTree`, `NodeStream`, `MergeStreams`, `Highlight`, `HighlightProofs`,
  `HighlightTrace`, `HighlightPlaces`, `HighlightRuns`, `HighlightLimits`, `HighlightNames`, `Highlighter`,
  `HighlightBlock`). `HtmlText`
  writes tags and characters as the program does and reads any text as an HTML tokenizer does (section 13.2.5 of the
  HTML Standard); `PageTree` builds the nodes. In between, markup is a sequence of tokens, and `Read` says what is open,
  the text, and the elements around each character; it knows the void elements of HTML, and not the program's test for
  them. The engine is a pushdown transducer over an arbitrary regular expression oracle; `Highlight` defines its steps,
  `Highlighter` is the imperative program, proved equal to them. `HighlightProofs` and `HighlightRuns` hold the theorems
  about every run, `HighlightTrace` accounts for every character of the input, `HighlightPlaces` for the spans around
  it and for relevance, `HighlightNames` for what stands in tags, and `HighlightLimits` shows conditions to be needed.
  `NodeStream` and `MergeStreams` are the event array and the interleaving loop. `HighlightBlock` puts all of it
  together, from the nodes of a block to the nodes it has afterwards.
- **URLs** (`DotSegments`, `Url`, `UrlRoundTrip`, `UrlCanonical`, `UrlObject`, `UrlParts`, `Percent`, `QueryString`,
  `UriTemplate`). The path resolver is compared with RFC 3986, written out as an independent definition, and reserved
  encoding with RFC 6570; printer and parser are inverse to each other under exact conditions; the mutable object keeps
  its derived properties in step, and setting a part of it is parsing the address with that part.
- **Pretty printing** (`Decorations`, `Recombine`, `Charset`). Two in-place array passes, a two-cursor walk, and a
  normal form of character ranges that is shown to be unique.
- **Admin pages** (`Gregorian`, `Calendar`, `WindowNames`, `Formset`, `Dates`, `SelectBox`, with `Numerals`). State
  machines with invariants over every run, and round trips.

`Basics` and `Strings` hold what the others share. Strings are sequences of characters; case is ASCII.

Several promises of the code or its comments hold only under a condition. The code is modelled as it is, and the exact
condition is proved, except where a condition is called sufficient:

- Attribute values are written without escaping quotation marks. The markup of a highlighted block reads as it is meant
  if and only if no attribute value of its elements holds one; `<span title='a"b='>x</span>` is lost with its text.
  What follows about a block's markup is for blocks that meet this condition.
- The void-element test in the event stream is not anchored, so `<abbr>` gets no end tag and what follows falls into
  it. A highlighted block is balanced if and only if no element is wrongly taken for void, and every character keeps
  its elements if and only if no void element holds text and no text follows an element that is left open.
- A lexeme that nothing claims and that is empty advances the index by one without writing the character.
- A language whose own mode can be ended and then starts one with a class can leave a span open. Balance is proved for
  languages whose own mode starts none, is never ended, or has no class, like all that can take its place. This
  condition is sufficient; `HighlightLimits.EndedRootStaysOpen` shows it needed for a class of grammars.
- A printed URL is parsed differently when a password or an `@` has no user name before it, or when a host name ends
  like a port and the port itself was a default one.
- Query objects with an empty or a `__proto__` key do not survive printing and parsing.
- `encodeReserved` looks for a percent sign and one digit, so a part with an incomplete triplet is not encoded at all.
- The calendar and the date parser put the years 0 to 99 into the twentieth century, so pages do not tile at three
  months, and two-digit years are read back for that century only.
- Setting the host or the protocol of a URL object is not parsing the address again where a default port is involved.
- Window names are called reversible, but an id can spell a code, as `__dot__` does.
- Rewriting a form index is idempotent unless a digit follows the placeholder.
- `move_all` with equal values can take a hidden entry and leave a displayed one.
- The path resolver loses the root that RFC 3986 puts before the result (base `x`, path `../a/../b` gives `b` and not
  `/b`) if and only if the merged path begins with dot segments and then climbs above the first other segment. No base
  that is empty or rooted makes such a path.

## Model

| member | source | states |
|---|---|---|
| `Markup.EscapeReadsBack` | ServeurHTTPS/DjangoDirectory/ServeurHTTP/static/rest_framework/docs/js/highlight.pack.js:1 | the three chained replacements of `n` leave no raw angle bracket, and a one-pass HTML reader gets the text back |
| `Markup.EscapeHead` | ServeurHTTPS/DjangoDirectory/ServeurHTTP/static/rest_framework/docs/js/highlight.pack.js:1 | the three passes together act on each character alone: no pass touches what an earlier one wrote |
| `NodeStream.Walker.Walk` | ServeurHTTPS/DjangoDirectory/ServeurHTTP/static/rest_framework/docs/js/highlight.pack.js:1 | `o` pushes exactly the event stream of the tree onto its array and returns the offset after the text |
| `NodeStream.StreamIsWellFormed` | ServeurHTTPS/DjangoDirectory/ServeurHTTP/static/rest_framework/docs/js/highlight.pack.js:1 | for every tree the offsets are in order up to the text length, and the events are well nested, as HTML reads them, if and only if no name passes the program's void test without being that of a void element |
| `NodeStream.StreamKeepsNesting` | ServeurHTTPS/DjangoDirectory/ServeurHTTP/static/rest_framework/docs/js/highlight.pack.js:1 | where a reader of the stream puts every character; it is inside the elements that hold it in the tree if and only if no void element holds text and no text follows, in its list, an element that leaves something open |
| `NodeStream.StopUnlessNamed` | ServeurHTTPS/DjangoDirectory/ServeurHTTP/static/rest_framework/docs/js/highlight.pack.js:1 | an element gets a stop event unless `br`, `hr`, `img` or `input` stands somewhere in its name |
| `NodeStream.AbbrTakesInWhatFollows` | ServeurHTTPS/DjangoDirectory/ServeurHTTP/static/rest_framework/docs/js/highlight.pack.js:1 | concrete trees that fail: the void test is not anchored, so `<abbr>` gets no end tag and what follows it falls into it, whether it holds text or not |
| `NodeStream.StreamOpenAfter` | ServeurHTTPS/DjangoDirectory/ServeurHTTP/static/rest_framework/docs/js/highlight.pack.js:1 | what is open after the stream of a tree: what was open before it and the elements it leaves open |
| `HtmlText.HtmlReadsBack` | ServeurHTTPS/DjangoDirectory/ServeurHTTP/static/rest_framework/docs/js/highlight.pack.js:1 | text written for tags and characters is read by a one-pass HTML tokenizer as exactly those tags and characters, up to letter case and object identity, if and only if no attribute value holds a quotation mark: the inner `o` of `u` escapes values with `n`, which leaves that mark alone |
| `HtmlText.TokenReads` | ServeurHTTPS/DjangoDirectory/ServeurHTTP/static/rest_framework/docs/js/highlight.pack.js:1 | the same for one tag in front of any text: it reads back as itself with what follows untouched if and only if no value in it holds a quotation mark, and otherwise what is read first is something else |
| `HtmlText.QuoteSwallows` | ServeurHTTPS/DjangoDirectory/ServeurHTTP/static/rest_framework/docs/js/highlight.pack.js:1 | a tag with the title `a"b=` and all that follows it up to the next quotation mark is read as nothing |
| `HtmlText.TokensAreElements` | ServeurHTTPS/DjangoDirectory/ServeurHTTP/static/rest_framework/docs/js/highlight.pack.js:1 | the elements read from any text have names and distinct attributes of the kind that reading back is proved for |
| `PageTree.ReadFindsNodes` | ServeurHTTPS/DjangoDirectory/ServeurHTTP/static/rest_framework/docs/js/highlight.pack.js:1 | for every sequence of tags and characters, misnested ones included, reading finds the text and the surrounding elements of each character that the nodes built from it have |
| `PageTree.ParsedElements` | ServeurHTTPS/DjangoDirectory/ServeurHTTP/static/rest_framework/docs/js/highlight.pack.js:1 | the elements of those nodes are the ones that have a start tag |
| `MergeStreams.Merge` | ServeurHTTPS/DjangoDirectory/ServeurHTTP/static/rest_framework/docs/js/highlight.pack.js:1 | `u` over any ordered page stream and any well-nested highlight stream on one text: the string written is the text of markup with exactly the value as its text, every character inside the original elements and then the highlight spans open at its offset, balanced if and only if the page stream is well nested, and without the spans the page's own markup; and that string is read as this markup if and only if no attribute value of the two streams holds a quotation mark; when every highlight span covers a character, so does every span written, however the page's tags cut it up: a character stands between a start tag of a span and any later end tag of one |
| `MergeStreams.TextStep` | ServeurHTTPS/DjangoDirectory/ServeurHTTP/static/rest_framework/docs/js/highlight.pack.js:1 | one round of `u` up to the next event: all of the merge's invariant is kept and the open elements stay (original, then spans) |
| `MergeStreams.CloseStep` | ServeurHTTPS/DjangoDirectory/ServeurHTTP/static/rest_framework/docs/js/highlight.pack.js:1 | closing every span before an original tag keeps the invariant and leaves exactly the original elements open |
| `MergeStreams.ReopenStep` | ServeurHTTPS/DjangoDirectory/ServeurHTTP/static/rest_framework/docs/js/highlight.pack.js:1 | reopening them after the original tags keeps the invariant and restores the same spans in the same order |
| `MergeStreams.OriginalStep` | ServeurHTTPS/DjangoDirectory/ServeurHTTP/static/rest_framework/docs/js/highlight.pack.js:1 | an original tag written between the two keeps the invariant, and reading the output agrees with the stream |
| `MergeStreams.SpanStep` | ServeurHTTPS/DjangoDirectory/ServeurHTTP/static/rest_framework/docs/js/highlight.pack.js:1 | a highlight tag pushes or pops the span stack and the output's open elements alike |
| `HighlightProofs.HighlightIsBalanced` | ServeurHTTPS/DjangoDirectory/ServeurHTTP/static/rest_framework/docs/js/highlight.pack.js:1 | whatever the regular expressions answer, what `s` returns is balanced, has no void element, and takes each character from the input position the account names, for languages whose own mode starts no other, is never ended, or leaves its place only to modes without a class, having none itself |
| `HighlightLimits.EndedRootStaysOpen` | ServeurHTTPS/DjangoDirectory/ServeurHTTP/static/rest_framework/docs/js/highlight.pack.js:1 | the condition is needed for a class of grammars: where a language's own mode starts one with a class and contains one that ends it, itself or after any number of ends through those that take its place (each with an end that is not returned, no embedded language, and a beginning that no mode before it shares), some matcher makes a finished run that leaves a span open |
| `HighlightLimits.StartingRootIsEndable` | ServeurHTTPS/DjangoDirectory/ServeurHTTP/static/rest_framework/docs/js/highlight.pack.js:1 | a grammar of that kind, which the condition excludes |
| `HighlightProofs.HighlightKeepsText` | ServeurHTTPS/DjangoDirectory/ServeurHTTP/static/rest_framework/docs/js/highlight.pack.js:1 | when no end is both excluded and returned, the text of the markup is the input without exactly the characters at the positions passed over, and so the input if and only if there are none |
| `HighlightTrace.TextWhole` | ServeurHTTPS/DjangoDirectory/ServeurHTTP/static/rest_framework/docs/js/highlight.pack.js:1 | then every position of the input is written once, in order, or passed over: by an empty lexeme before the end that nothing claims, here or in an embedded call |
| `HighlightTrace.EmbedPositions` | ServeurHTTPS/DjangoDirectory/ServeurHTTP/static/rest_framework/docs/js/highlight.pack.js:1 | writing pending text through an embedded call that passes over some of it passes over the same positions of the whole text |
| `HighlightLimits.EmptyMatchLosesACharacter` | ServeurHTTPS/DjangoDirectory/ServeurHTTP/static/rest_framework/docs/js/highlight.pack.js:1 | a concrete grammar and run that lose the only character of the input |
| `HighlightProofs.ClaimingKeepsText` | ServeurHTTPS/DjangoDirectory/ServeurHTTP/static/rest_framework/docs/js/highlight.pack.js:1 | a grammar that claims its empty lexemes loses no character |
| `HighlightProofs.RoundSound` | ServeurHTTPS/DjangoDirectory/ServeurHTTP/static/rest_framework/docs/js/highlight.pack.js:1 | every round of the main loop keeps: written and pending text are the input at the positions of the account, and the open spans are those of the class-bearing modes on the parent chain |
| `HighlightProofs.RoundsSound` | ServeurHTTPS/DjangoDirectory/ServeurHTTP/static/rest_framework/docs/js/highlight.pack.js:1 | a run of the main loop that ends has written, its pending text included, the input at the positions of the account, with those spans open |
| `HighlightProofs.ReplaceSound` | ServeurHTTPS/DjangoDirectory/ServeurHTTP/static/rest_framework/docs/js/highlight.pack.js:1 | ending the whole chain, where another mode takes the place of a root without a class, keeps the same account |
| `HighlightProofs.LexemeSound` | ServeurHTTPS/DjangoDirectory/ServeurHTTP/static/rest_framework/docs/js/highlight.pack.js:1 | one call of `m` keeps the same, for each of its outcomes |
| `HighlightProofs.TextSound` | ServeurHTTPS/DjangoDirectory/ServeurHTTP/static/rest_framework/docs/js/highlight.pack.js:1 | the same for a whole call with any continuation, embedded languages included; the chain it hands back continues the same language |
| `HighlightTrace.TextSkipsNothing` | ServeurHTTPS/DjangoDirectory/ServeurHTTP/static/rest_framework/docs/js/highlight.pack.js:1 | a grammar that claims its empty lexemes passes over no position of any text |
| `HighlightProofs.AutoSound` | ServeurHTTPS/DjangoDirectory/ServeurHTTP/static/rest_framework/docs/js/highlight.pack.js:1 | automatic detection returns markup of the same quality |
| `HighlightProofs.KeywordsSpell` | ServeurHTTPS/DjangoDirectory/ServeurHTTP/static/rest_framework/docs/js/highlight.pack.js:1 | `d` marks keywords without changing a character of the pending text |
| `HighlightProofs.EndSound` | ServeurHTTPS/DjangoDirectory/ServeurHTTP/static/rest_framework/docs/js/highlight.pack.js:1 | ending modes closes exactly the spans of the modes left, also when another mode starts in their place |
| `HighlightProofs.StartSound` | ServeurHTTPS/DjangoDirectory/ServeurHTTP/static/rest_framework/docs/js/highlight.pack.js:1 | entering a mode with any of its begin flags keeps the account of the text and of the open spans |
| `HighlightRuns.ThrowsOnlyUnknown` | ServeurHTTPS/DjangoDirectory/ServeurHTTP/static/rest_framework/docs/js/highlight.pack.js:1 | for grammars whose own modes nothing ends, nor are said to end with a parent, a call throws if and only if the language is unknown, and an illegal lexeme never escapes it |
| `HighlightRuns.EndStays` | ServeurHTTPS/DjangoDirectory/ServeurHTTP/static/rest_framework/docs/js/highlight.pack.js:1 | the search up the parent chain does not end a root that nothing ends, whatever matches |
| `HighlightRuns.DecideStays` | ServeurHTTPS/DjangoDirectory/ServeurHTTP/static/rest_framework/docs/js/highlight.pack.js:1 | whatever a lexeme does, the chain it leaves is again one from which no lexeme ends the root |
| `HighlightRuns.TextMore` | ServeurHTTPS/DjangoDirectory/ServeurHTTP/static/rest_framework/docs/js/highlight.pack.js:1 | a call that ends gives the same outcome with any larger bound on its rounds |
| `HighlightPlaces.KeywordsArePlaced` | ServeurHTTPS/DjangoDirectory/ServeurHTTP/static/rest_framework/docs/js/highlight.pack.js:1 | in the markup of a pending text a character is in one span, `hljs-` and the keyword's class, if the lexeme it lies in is a keyword, in lower case where the language ignores case, and in none otherwise; the relevance is the sum over those lexemes |
| `HighlightPlaces.LexemeGained` | ServeurHTTPS/DjangoDirectory/ServeurHTTP/static/rest_framework/docs/js/highlight.pack.js:1 | where one call of `m` puts characters: pending text inside the spans of the modes on the chain and, within those, of keywords or of the embedded language, an excluded beginning before the new span opens, an excluded end after the old ones close; and the relevance it adds |
| `HighlightPlaces.HighlightIsPlaced` | ServeurHTTPS/DjangoDirectory/ServeurHTTP/static/rest_framework/docs/js/highlight.pack.js:1 | so over whole runs: the spans around every character of the result, and its relevance; an illegal lexeme gives the plain text and none |
| `HighlightPlaces.DecideIs` | ServeurHTTPS/DjangoDirectory/ServeurHTTP/static/rest_framework/docs/js/highlight.pack.js:1 | a lexeme begins the first contained mode that it begins; if none, it ends the innermost mode with that end, through modes that ask their parents, and the parents that mode takes along; if none, it is illegal, or text |
| `HighlightPlaces.AutoPicksFirstBest` | ServeurHTTPS/DjangoDirectory/ServeurHTTP/static/rest_framework/docs/js/highlight.pack.js:1 | detection gives the first among the most relevant results of the known languages, or the plain text where none is above zero |
| `HighlightPlaces.SubIs` | ServeurHTTPS/DjangoDirectory/ServeurHTTP/static/rest_framework/docs/js/highlight.pack.js:1 | the call an embedded text makes: a registered language, from the chain kept for it if there is one, or detection |
| `HighlightPlaces.EmbedRemembers` | ServeurHTTPS/DjangoDirectory/ServeurHTTP/static/rest_framework/docs/js/highlight.pack.js:1 | that chain is kept in a continuous mode, for that language, and in no other |
| `HighlightPlaces.LostRootThrows` | ServeurHTTPS/DjangoDirectory/ServeurHTTP/static/rest_framework/docs/js/highlight.pack.js:1 | a continuation whose root another mode has replaced is an exception |
| `HighlightPlaces.FindIs` | ServeurHTTPS/DjangoDirectory/ServeurHTTP/static/rest_framework/docs/js/highlight.pack.js:1 | a name is looked up before the aliases |
| `Highlighter.Run.constructor` | ServeurHTTPS/DjangoDirectory/ServeurHTTP/static/rest_framework/docs/js/highlight.pack.js:1 | reopening a continuation's spans from the innermost mode outwards gives the initial state |
| `Highlighter.Run.ProcessKeywords` | ServeurHTTPS/DjangoDirectory/ServeurHTTP/static/rest_framework/docs/js/highlight.pack.js:1 | the loop of `d` over the lexemes is the keyword marking that is proved to keep the text |
| `Highlighter.Run.WritePending` | ServeurHTTPS/DjangoDirectory/ServeurHTTP/static/rest_framework/docs/js/highlight.pack.js:1 | `b`: the new output and relevance of writing the pending text, through `h` or `d` |
| `Highlighter.Run.StartNewMode` | ServeurHTTPS/DjangoDirectory/ServeurHTTP/static/rest_framework/docs/js/highlight.pack.js:1 | `v`: the new chain, output and pending text |
| `Highlighter.Run.LeaveDownTo` | ServeurHTTPS/DjangoDirectory/ServeurHTTP/static/rest_framework/docs/js/highlight.pack.js:1 | the `do` loop of `m` closes the spans of all modes from a position up and adds their relevance |
| `Highlighter.Run.EndModes` | ServeurHTTPS/DjangoDirectory/ServeurHTTP/static/rest_framework/docs/js/highlight.pack.js:1 | the rest of the ending branch: excluded lexeme, pending text, and the mode that starts next |
| `Highlighter.Run.ProcessLexeme` | ServeurHTTPS/DjangoDirectory/ServeurHTTP/static/rest_framework/docs/js/highlight.pack.js:1 | `m` as it runs on the shared variables takes the step the run theorems are about, and returns the same advance |
| `Highlighter.Run.Process` | ServeurHTTPS/DjangoDirectory/ServeurHTTP/static/rest_framework/docs/js/highlight.pack.js:1 | the main loop of `s` ends in the state, or the exception, of the run theorems |
| `Highlighter.Run.CloseAll` | ServeurHTTPS/DjangoDirectory/ServeurHTTP/static/rest_framework/docs/js/highlight.pack.js:1 | the final loop closes the spans of every mode but the root, innermost first |
| `Highlighter.HighlightOne` | ServeurHTTPS/DjangoDirectory/ServeurHTTP/static/rest_framework/docs/js/highlight.pack.js:1 | `s` as a whole is the call the theorems are about |
| `Highlighter.HighlightAuto` | ServeurHTTPS/DjangoDirectory/ServeurHTTP/static/rest_framework/docs/js/highlight.pack.js:1 | `l` picks the first most relevant result, or the plain text |
| `HighlightNames.TextPlain` | ServeurHTTPS/DjangoDirectory/ServeurHTTP/static/rest_framework/docs/js/highlight.pack.js:1 | every tag a call writes is that of a span whose class needs no escaping, when no class, keyword class or language name of the grammars has a quotation mark, an ampersand or an angle bracket |
| `HighlightNames.RawBuilds` | ServeurHTTPS/DjangoDirectory/ServeurHTTP/static/rest_framework/docs/js/highlight.pack.js:1 | so a browser builds from the unescaped `<span class="` of `p`, through `innerHTML`, the nodes that its spans stand for |
| `HighlightBlock.ValueStream` | ServeurHTTPS/DjangoDirectory/ServeurHTTP/static/rest_framework/docs/js/highlight.pack.js:1 | the event stream of those nodes is well nested and in order, and has each character inside the spans that the engine put around it |
| `HighlightBlock.RenderBlock` | ServeurHTTPS/DjangoDirectory/ServeurHTTP/static/rest_framework/docs/js/highlight.pack.js:1 | `highlightBlock` end to end, for languages as above with names as above: a browser reads the new markup as it was meant if and only if no attribute of the block holds a quotation mark; then, where nothing is passed over, the new child list has the block's text, the markup is balanced if and only if no element is wrongly taken for void, and every character is inside the page's elements and then the engine's spans if and only if no void element holds text and none follows an element left open; a block with elements then keeps its text in any case |
| `HighlightBlock.QuotedTitleLosesText` | ServeurHTTPS/DjangoDirectory/ServeurHTTP/static/rest_framework/docs/js/highlight.pack.js:1 | a block that meets every other condition, `<span title='a"b='>x</span>`, is written so that it reads as nothing |
| `HighlightBlock.PagesAreFromMarkup` | ServeurHTTPS/DjangoDirectory/ServeurHTTP/static/rest_framework/docs/js/highlight.pack.js:1 | every page that was read from text has element and attribute names as the theorem asks for |
| `HighlightBlock.ValueSpells` | ServeurHTTPS/DjangoDirectory/ServeurHTTP/static/rest_framework/docs/js/highlight.pack.js:1 | what highlighting a block returns spells its text without the characters passed over |
| `DotSegments.Resolve` | ServeurHTTPS/DjangoDirectory/ServeurHTTP/static/rest_framework/js/coreapi-0.1.1.js:1039-1063 | the backward scan with splices, `up` and `unshift` computes the stated function of the segments |
| `DotSegments.ResolvedIsRfc` | ServeurHTTPS/DjangoDirectory/ServeurHTTP/static/rest_framework/js/coreapi-0.1.1.js:1039-1063 | for every relative path and every base, the result is the merge of section 5.2.3 followed by remove_dot_segments of section 5.2.4 of RFC 3986 if and only if the merged path does not climb above its start after leading dot segments |
| `DotSegments.RootedResolvedIsRfc` | ServeurHTTPS/DjangoDirectory/ServeurHTTP/static/rest_framework/js/coreapi-0.1.1.js:1039-1063 | so it is for every base that is empty or rooted |
| `DotSegments.RfcJoined` | ServeurHTTPS/DjangoDirectory/ServeurHTTP/static/rest_framework/js/coreapi-0.1.1.js:1039-1063 | what section 5.2.4 makes of any path: leading dot segments dropped, the first segment kept unless the rest climbs above it |
| `DotSegments.UnrootedDiffers` | ServeurHTTPS/DjangoDirectory/ServeurHTTP/static/rest_framework/js/coreapi-0.1.1.js:1039-1063 | a concrete base and path on which the two results differ, and both of them |
| `DotSegments.ResolvedHasNoDots` | ServeurHTTPS/DjangoDirectory/ServeurHTTP/static/rest_framework/js/coreapi-0.1.1.js:1039-1063 | for every base, no `.` or `..` segment survives |
| `DotSegments.BackIsForward` | ServeurHTTPS/DjangoDirectory/ServeurHTTP/static/rest_framework/js/coreapi-0.1.1.js:1045-1057 | reading forwards with a stack is taking off what the backward scan has left over and adding what it keeps |
| `DotSegments.RfcOnParts` | ServeurHTTPS/DjangoDirectory/ServeurHTTP/static/rest_framework/js/coreapi-0.1.1.js:1045-1062 | the buffer algorithm of section 5.2.4 of RFC 3986 on the segments after a first one keeps their forward reading, and the first unless they climb above it |
| `UrlParts.RelativeParsed` | ServeurHTTPS/DjangoDirectory/ServeurHTTP/static/rest_framework/js/coreapi-0.1.1.js:1076-1202 | the object of a relative address: its path is the RFC 3986 resolution of its own against the location's, exactly unless it climbs after leading dot segments, which an empty or rooted location path excludes; its own where it is rooted or the location has no slashes; empty where both are the empty string; all else but query and fragment is the location's |
| `UrlParts.SlashedParsed` | ServeurHTTPS/DjangoDirectory/ServeurHTTP/static/rest_framework/js/coreapi-0.1.1.js:1076-1202 | an address with slashes in pieces, with or without a scheme, parses to those pieces: scheme and host in lower case, a port that goes without saying dropped, a missing scheme taken from the location |
| `UrlParts.OpaqueParsed` | ServeurHTTPS/DjangoDirectory/ServeurHTTP/static/rest_framework/js/coreapi-0.1.1.js:1076-1202 | an address with a scheme and no slashes has a path, query and fragment and nothing else |
| `UrlParts.UserRead` | ServeurHTTPS/DjangoDirectory/ServeurHTTP/static/rest_framework/js/coreapi-0.1.1.js:1187-1192 | the user name ends at the first colon and the password at the next |
| `UrlParts.RequiredIs` | ServeurHTTPS/DjangoDirectory/ServeurHTTP/static/rest_framework/js/coreapi-0.1.1.js:948-974 | a port is kept unless it is 0, the protocol is for files, or it is the registered one of http, https, ws, wss, ftp or gopher |
| `UrlRoundTrip.ParsedIsShaped` | ServeurHTTPS/DjangoDirectory/ServeurHTTP/static/rest_framework/js/coreapi-0.1.1.js:1076-1202 | every absolute address parses to parts in lower case that lack each other's delimiters, with no default port |
| `UrlRoundTrip.ParsePrinted` | ServeurHTTPS/DjangoDirectory/ServeurHTTP/static/rest_framework/js/coreapi-0.1.1.js:1076-1202 | parsing a printed record of such parts gives every part back if and only if it is printable: no password or `@` without a user name, no port-like end of a host name without a port |
| `UrlRoundTrip.ReparseAddress` | ServeurHTTPS/DjangoDirectory/ServeurHTTP/static/rest_framework/js/coreapi-0.1.1.js:1298-1323 | for every absolute address, printing what it parses to and parsing again gives the same parts under exactly that condition |
| `UrlRoundTrip.PasswordAloneIsLost` | ServeurHTTPS/DjangoDirectory/ServeurHTTP/static/rest_framework/js/coreapi-0.1.1.js:1298-1323 | an absolute address that fails it: `a://:p@h` |
| `UrlCanonical.PrintsBack` | ServeurHTTPS/DjangoDirectory/ServeurHTTP/static/rest_framework/js/coreapi-0.1.1.js:1298-1323 | printing what an absolute address parses to gives the address back if and only if scheme and host are in lower case, the user information is complete, and a written port is no default one |
| `UrlCanonical.CutWhole` | ServeurHTTPS/DjangoDirectory/ServeurHTTP/static/rest_framework/js/coreapi-0.1.1.js:1127-1155 | the parse rules cut an absolute address into pieces that make it up again |
| `UrlParts.SetPathIsParsed` | ServeurHTTPS/DjangoDirectory/ServeurHTTP/static/rest_framework/js/coreapi-0.1.1.js:1217-1289 | setting the path, a slash put in front if need be, gives the object that the address with that path gives |
| `UrlParts.SetHashIsParsed` | ServeurHTTPS/DjangoDirectory/ServeurHTTP/static/rest_framework/js/coreapi-0.1.1.js:1217-1289 | the same for the fragment |
| `UrlParts.SetPortIsParsed` | ServeurHTTPS/DjangoDirectory/ServeurHTTP/static/rest_framework/js/coreapi-0.1.1.js:1217-1289 | the same for the port, a default one included |
| `UrlParts.SetNameIsParsed` | ServeurHTTPS/DjangoDirectory/ServeurHTTP/static/rest_framework/js/coreapi-0.1.1.js:1217-1289 | the same for the host name |
| `UrlParts.SetHostIsParsed` | ServeurHTTPS/DjangoDirectory/ServeurHTTP/static/rest_framework/js/coreapi-0.1.1.js:1217-1289 | the same for the host if and only if its port, if it has one, does not go without saying |
| `UrlParts.SetProtocolIsParsed` | ServeurHTTPS/DjangoDirectory/ServeurHTTP/static/rest_framework/js/coreapi-0.1.1.js:1217-1289 | the same for the protocol if and only if the old and the new one both keep the port or both do not |
| `UrlParts.SetTakes` | ServeurHTTPS/DjangoDirectory/ServeurHTTP/static/rest_framework/js/coreapi-0.1.1.js:1217-1289 | a query is parsed when it is set; origin and href cannot be set; every other property takes the value, and only the address follows |
| `UrlParts.OriginIsBareAddress` | ServeurHTTPS/DjangoDirectory/ServeurHTTP/static/rest_framework/js/coreapi-0.1.1.js:1194-1196 | the origin is the printed address of the bare host, or "null" for files and without a protocol or host |
| `UrlParts.MarksAreAdded` | ServeurHTTPS/DjangoDirectory/ServeurHTTP/static/rest_framework/js/coreapi-0.1.1.js:1298-1323 | a protocol or query that was set without its mark is printed with it |
| `UrlObject.URL.constructor` | ServeurHTTPS/DjangoDirectory/ServeurHTTP/static/rest_framework/js/coreapi-0.1.1.js:1076-1202 | the rules assign every property of the object from the address and the location as the value-level parser does; origin and href follow; coherent exactly when the address is not relative or the location fits |
| `UrlObject.HrefIsPrinted` | ServeurHTTPS/DjangoDirectory/ServeurHTTP/static/rest_framework/js/coreapi-0.1.1.js:1199-1202 | the object's own href is the printed form of the parsed address |
| `UrlObject.ConstructedCoherent` | ServeurHTTPS/DjangoDirectory/ServeurHTTP/static/rest_framework/js/coreapi-0.1.1.js:1163-1202 | a new object has host = host name and port, lower case, origin and href in step if and only if its address is not relative, or the location's host is its name and port up to case, or its port is dropped |
| `UrlObject.URL.Assign` | ServeurHTTPS/DjangoDirectory/ServeurHTTP/static/rest_framework/js/coreapi-0.1.1.js:1220-1273 | each branch of the switch, its new fields and what it leaves alone |
| `UrlObject.URL.Set` | ServeurHTTPS/DjangoDirectory/ServeurHTTP/static/rest_framework/js/coreapi-0.1.1.js:1217-1289 | `set` gives the stated new object, and a coherent object stays coherent |
| `UrlObject.ChangedCoherent` | ServeurHTTPS/DjangoDirectory/ServeurHTTP/static/rest_framework/js/coreapi-0.1.1.js:1217-1289 | any one assignment, a digit-string port included, keeps host, case, origin and href in step |
| `UrlObject.RunStaysCoherent` | ServeurHTTPS/DjangoDirectory/ServeurHTTP/static/rest_framework/js/coreapi-0.1.1.js:1217-1289 | the same over every sequence of assignments |
| `QueryString.Parse` | ServeurHTTPS/DjangoDirectory/ServeurHTTP/static/rest_framework/js/coreapi-0.1.1.js:885-901 | the `exec` loop fills the object left to right; a malformed escape is an error |
| `QueryString.Stringify` | ServeurHTTPS/DjangoDirectory/ServeurHTTP/static/rest_framework/js/coreapi-0.1.1.js:911-928 | the pairs joined in the object's order behind the prefix, and nothing for an empty object |
| `QueryString.MatchRead` | ServeurHTTPS/DjangoDirectory/ServeurHTTP/static/rest_framework/js/coreapi-0.1.1.js:886-899 | any separators, a key, an equals sign or none, and a value up to the next ampersand are one match, whatever follows |
| `QueryString.PrefixInFront` | ServeurHTTPS/DjangoDirectory/ServeurHTTP/static/rest_framework/js/coreapi-0.1.1.js:911-928 | a printed object has its prefix in front, a question mark where only a flag is given |
| `QueryString.ParsePrinted` | ServeurHTTPS/DjangoDirectory/ServeurHTTP/static/rest_framework/js/coreapi-0.1.1.js:885-928 | for any key order and any prefix made of separators, parsing the printed object gives the object back if and only if no key is empty or `__proto__` |
| `QueryString.PairMatches` | ServeurHTTPS/DjangoDirectory/ServeurHTTP/static/rest_framework/js/coreapi-0.1.1.js:886-899 | one printed pair is exactly one match of the scanner, whatever follows |
| `QueryString.CollectedKeys` | ServeurHTTPS/DjangoDirectory/ServeurHTTP/static/rest_framework/js/coreapi-0.1.1.js:896-899 | no parsed object has an empty or `__proto__` key |
| `Percent.DecodeEncode` | ServeurHTTPS/DjangoDirectory/ServeurHTTP/static/rest_framework/js/coreapi-0.1.1.js:898-923 | percent-decoding undoes percent-encoding on every byte string (section 2.1 of RFC 3986) |
| `Percent.ComponentIsRfc` | ServeurHTTPS/DjangoDirectory/ServeurHTTP/static/rest_framework/js/coreapi-0.1.1.js:921-923 | unreserved characters of RFC 3986 and `!*'()` stay as they are, and every other byte becomes its triplet in capital digits |
| `Percent.DecodesWellFormed` | ServeurHTTPS/DjangoDirectory/ServeurHTTP/static/rest_framework/js/coreapi-0.1.1.js:898 | decoding fails if and only if some percent sign is not followed by two hexadecimal digits, in either case |
| `Percent.HexValueIs` | ServeurHTTPS/DjangoDirectory/ServeurHTTP/static/rest_framework/js/coreapi-0.1.1.js:898 | hexadecimal digits in both cases stand for their values |
| `Percent.EncodedIsPlain` | ServeurHTTPS/DjangoDirectory/ServeurHTTP/static/rest_framework/js/coreapi-0.1.1.js:921-923 | encoded text holds none of the characters that delimit a query string, and is empty only for empty text |
| `UriTemplate.EncodeReservedTwice` | ServeurHTTPS/DjangoDirectory/ServeurHTTP/static/rest_framework/js/coreapi-0.1.1.js:1414-1421 | `encodeReserved` is idempotent on every byte string, incomplete triplets included |
| `UriTemplate.EncodeReservedKeepsMeaning` | ServeurHTTPS/DjangoDirectory/ServeurHTTP/static/rest_framework/js/coreapi-0.1.1.js:1414-1421 | it never changes what the text decodes to |
| `UriTemplate.ReservedParts` | ServeurHTTPS/DjangoDirectory/ServeurHTTP/static/rest_framework/js/coreapi-0.1.1.js:1414-1421 | the first triplet stays in its place as it is written, the text in front of it is encoded on its own, and the text behind it likewise in turn |
| `UriTemplate.ReservedIsRfc` | ServeurHTTPS/DjangoDirectory/ServeurHTTP/static/rest_framework/js/coreapi-0.1.1.js:1414-1421 | on every byte string the result is the reserved expansion of section 3.2.3 of RFC 6570 (triplets, reserved and unreserved characters stay, every other byte becomes its triplet) if and only if no percent sign stands before exactly one hexadecimal digit |
| `UriTemplate.EncodedUnlessLoneDigit` | ServeurHTTPS/DjangoDirectory/ServeurHTTP/static/rest_framework/js/coreapi-0.1.1.js:1414-1421 | the result holds only legal characters and triplets if and only if the text has no percent sign before exactly one hexadecimal digit |
| `UriTemplate.LoneDigitStays` | ServeurHTTPS/DjangoDirectory/ServeurHTTP/static/rest_framework/js/coreapi-0.1.1.js:1414-1421 | such a text: in `%4 ` the space is not encoded |
| `UriTemplate.PartByCharacter` | ServeurHTTPS/DjangoDirectory/ServeurHTTP/static/rest_framework/js/coreapi-0.1.1.js:1416-1418 | a part that is encoded is encoded character by character, square brackets kept |
| `Decorations.DropEmpty` | ServeurHTTPS/DjangoDirectory/ServeurHTTP/static/rest_framework/js/prettify-min.js:16 | the first in-place pass leaves the decorations that cover at least one character |
| `Decorations.MergeRuns` | ServeurHTTPS/DjangoDirectory/ServeurHTTP/static/rest_framework/js/prettify-min.js:16 | the second leaves the first of each run of one style |
| `Decorations.CompactInPlace` | ServeurHTTPS/DjangoDirectory/ServeurHTTP/static/rest_framework/js/prettify-min.js:16 | both: every text position keeps its style, positions increase strictly, neighbours differ |
| `Decorations.CompactIsUnique` | ServeurHTTPS/DjangoDirectory/ServeurHTTP/static/rest_framework/js/prettify-min.js:16 | no other array with that shape has those styles |
| `Recombine.Walk` | ServeurHTTPS/DjangoDirectory/ServeurHTTP/static/rest_framework/js/prettify-min.js:16-17 | the two cursors visit the common refinement of nodes and decorations: contiguous pieces, each in one text node and one decoration with its style, all text covered, and at most nodes plus decorations rounds |
| `Recombine.Render` | ServeurHTTPS/DjangoDirectory/ServeurHTTP/static/rest_framework/js/prettify-min.js:16-17 | passes and walk together: every character of a text node stands in one span with the style the lexer listed for it, and nothing else does |
| `Charset.Normalise` | ServeurHTTPS/DjangoDirectory/ServeurHTTP/static/rest_framework/js/prettify-min.js:2-4 | a code is in the list if and only if it or its ASCII case swap was in the class, and the ranges are in order with gaps |
| `Charset.CasesOfOne` | ServeurHTTPS/DjangoDirectory/ServeurHTTP/static/rest_framework/js/prettify-min.js:3 | the copies pushed for one range add exactly the other cases of its letters |
| `Charset.SeparatedIsUnique` | ServeurHTTPS/DjangoDirectory/ServeurHTTP/static/rest_framework/js/prettify-min.js:3 | such a list is the only one for its codes, so order and splitting of the input do not show |
| `Gregorian.TomorrowIsNext` | ServeurHTTPS/DjangoDirectory/ServeurHTTP/static/admin/js/calendar.js:91 | the day numbers behind the grid count one day after another across months and years, and the weekday advances by one |
| `Gregorian.YearLength` | ServeurHTTPS/DjangoDirectory/ServeurHTTP/static/admin/js/calendar.js:35-37 | years have 365 or 366 days by the leap-year rule |
| `Calendar.DaysAreRight` | ServeurHTTPS/DjangoDirectory/ServeurHTTP/static/admin/js/calendar.js:35-53 | `getDaysInMonth` agrees with the Gregorian month lengths |
| `Calendar.Draw` | ServeurHTTPS/DjangoDirectory/ServeurHTTP/static/admin/js/calendar.js:54-144 | every row has seven cells, each day of the month stands once, in order, from the starting column on, and the rest is blank |
| `Calendar.DaysStandUnderTheirWeekday` | ServeurHTTPS/DjangoDirectory/ServeurHTTP/static/admin/js/calendar.js:85-141 | every day stands under its true weekday if and only if the year is not one of 0 to 99, which the documented range admits |
| `Calendar.PagesTile` | ServeurHTTPS/DjangoDirectory/ServeurHTTP/static/admin/js/calendar.js:91-92 | the next month starts in the column after this month's last day if and only if this is not December of the year -1 or 99 or February of the year 0 |
| `Calendar.PagesRepeat` | ServeurHTTPS/DjangoDirectory/ServeurHTTP/static/admin/js/calendar.js:91-92 | pages repeat after 400 years if and only if neither year is one of 0 to 99 |
| `Calendar.Picker.DrawNextMonth` | ServeurHTTPS/DjangoDirectory/ServeurHTTP/static/admin/js/calendar.js:187-196 | one month on in the count of months, its page drawn, and the starting column that tiles but for those three months |
| `Calendar.Picker.DrawPreviousMonth` | ServeurHTTPS/DjangoDirectory/ServeurHTTP/static/admin/js/calendar.js:177-186 | one month back, its page drawn |
| `Calendar.Picker.DrawNextYear` | ServeurHTTPS/DjangoDirectory/ServeurHTTP/static/admin/js/calendar.js:201-204 | twelve months on, its page drawn |
| `Calendar.Picker.DrawPreviousYear` | ServeurHTTPS/DjangoDirectory/ServeurHTTP/static/admin/js/calendar.js:197-200 | twelve months back, its page drawn |
| `WindowNames.RoundTrip` | ServeurHTTPS/DjangoDirectory/ServeurHTTP/static/admin/js/admin/RelatedObjectLookups.js:12-22 | decoding the encoded id gives it back if and only if no place in it spells a code: `dot` or `dash` with characters on both sides that are, or are encoded with, the underscores of one |
| `WindowNames.PlainIdsAreReversible` | ServeurHTTPS/DjangoDirectory/ServeurHTTP/static/admin/js/admin/RelatedObjectLookups.js:12-22 | ids without `dot` and `dash` are among them, runs of underscores next to dots and dashes included |
| `WindowNames.NotReversible` | ServeurHTTPS/DjangoDirectory/ServeurHTTP/static/admin/js/admin/RelatedObjectLookups.js:9-22 | two ids that cannot be read back, against the comment that calls the encoding reversible |
| `WindowNames.DecodeHead` | ServeurHTTPS/DjangoDirectory/ServeurHTTP/static/admin/js/admin/RelatedObjectLookups.js:12-22 | the four passes on an id, by its first character: either it comes back and the rest is decoded alike, or it is replaced |
| `Formset.FirstIndexReplaced` | ServeurHTTPS/DjangoDirectory/ServeurHTTP/static/admin/js/inlines.js:24-36 | whatever stands in front and behind, the first place where the prefix, a dash and an index stand, a number or the placeholder, has its index replaced |
| `Formset.NoIndexKept` | ServeurHTTPS/DjangoDirectory/ServeurHTTP/static/admin/js/inlines.js:24-36 | a text without such a place stays as it is |
| `Formset.BearingIsKept` | ServeurHTTPS/DjangoDirectory/ServeurHTTP/static/admin/js/inlines.js:24-36 | the first index in every attribute of the controls is a given number if and only if rewriting them with it, now or later, changes nothing |
| `Formset.RewriteTwice` | ServeurHTTPS/DjangoDirectory/ServeurHTTP/static/admin/js/inlines.js:24-36 | rewriting an index twice is rewriting it once with the last value if and only if no placeholder with a digit after it is the first match |
| `Formset.DigitIsTakenIn` | ServeurHTTPS/DjangoDirectory/ServeurHTTP/static/admin/js/inlines.js:24-36 | an attribute that fails it, for any prefix: the placeholder followed by a 5 |
| `Formset.UpdateTwice` | ServeurHTTPS/DjangoDirectory/ServeurHTTP/static/admin/js/inlines.js:24-36 | the same if and only if for the three attributes of a control together |
| `Formset.RowRewritten` | ServeurHTTPS/DjangoDirectory/ServeurHTTP/static/admin/js/inlines.js:118 | a row's id becomes the id of its new position |
| `Formset.AddConsistent` | ServeurHTTPS/DjangoDirectory/ServeurHTTP/static/admin/js/inlines.js:61-92 | an add click keeps the counters, the indices, the button and the maximum in step |
| `Formset.DeleteConsistent` | ServeurHTTPS/DjangoDirectory/ServeurHTTP/static/admin/js/inlines.js:94-121 | so does a delete click |
| `Formset.RunStaysConsistent` | ServeurHTTPS/DjangoDirectory/ServeurHTTP/static/admin/js/inlines.js:61-121 | over every run of clicks TOTAL_FORMS, `nextIndex` and the number of forms agree, the row's id and the first index in every attribute are the form's position, and the total exceeds the maximum only if the page came with that many |
| `Formset.RunNumbersSurvivors` | ServeurHTTPS/DjangoDirectory/ServeurHTTP/static/admin/js/inlines.js:61-121 | after every run the page holds the surviving forms in their order, each as if it had been given its last index and no other |
| `Formset.Formset.constructor` | ServeurHTTPS/DjangoDirectory/ServeurHTTP/static/admin/js/inlines.js:37-42 | counters and button for any forms the page came with, more than the maximum included; consistent when the forms carry their positions |
| `Formset.Formset.ClickAdd` | ServeurHTTPS/DjangoDirectory/ServeurHTTP/static/admin/js/inlines.js:61-92 | the handler's new state, and that it stays consistent |
| `Formset.Formset.ClickDelete` | ServeurHTTPS/DjangoDirectory/ServeurHTTP/static/admin/js/inlines.js:94-121 | the handler's new state, and that it stays consistent |
| `Formset.Formset.UpdateForms` | ServeurHTTPS/DjangoDirectory/ServeurHTTP/static/admin/js/inlines.js:113-120 | the loop rewrites every form left to its position, in place |
| `Dates.Strftime` | ServeurHTTPS/DjangoDirectory/ServeurHTTP/static/admin/js/core.js:110-140 | the loop prints each field in place of its directive and every other character as it is |
| `Dates.Strptime` | ServeurHTTPS/DjangoDirectory/ServeurHTTP/static/admin/js/core.js:145-171 | the loop reads the piece that stands where each directive stands, the last one winning, as a day number with months and days out of range carried over; a missing piece, or one that ECMAScript does not read as a number, gives no date |
| `Dates.ReadBack` | ServeurHTTPS/DjangoDirectory/ServeurHTTP/static/admin/js/core.js:110-171 | for every valid date in reach, years before 0 included, and every format of %Y or %y, %m and %d, each at least once, joined by separators, the printed date is read back as the same day if and only if its year is at least 100 or, where the last year of the format is %y, one of 1900 to 1999 |
| `Dates.SplitsAt` | ServeurHTTPS/DjangoDirectory/ServeurHTTP/static/admin/js/core.js:146-147 | format and text are split at points, hyphens and slashes, and nowhere else |
| `Numerals.MarkedRead` | ServeurHTTPS/DjangoDirectory/ServeurHTTP/static/admin/js/core.js:155-171 | a piece is read as ECMAScript reads numbers: in other bases behind their mark |
| `Numerals.ExponentRead` | ServeurHTTPS/DjangoDirectory/ServeurHTTP/static/admin/js/core.js:155-171 | with an exponent |
| `Numerals.BlanksTrimmed` | ServeurHTTPS/DjangoDirectory/ServeurHTTP/static/admin/js/core.js:155-171 | and with blanks around it |
| `Dates.ScanFinds` | ServeurHTTPS/DjangoDirectory/ServeurHTTP/static/admin/js/core.js:150-166 | the scan over the pieces ends with the printed value of each field the format has |
| `Dates.TextPrinted` | ServeurHTTPS/DjangoDirectory/ServeurHTTP/static/admin/js/core.js:128-138 | text without percent signs is printed as it is, and a doubled percent sign as one |
| `Dates.PrintedWeave` | ServeurHTTPS/DjangoDirectory/ServeurHTTP/static/admin/js/core.js:128-138 | printing puts the field values between the same separators |
| `SelectBox.SelectBox.Filter` | ServeurHTTPS/DjangoDirectory/ServeurHTTP/static/admin/js/SelectBox.js:36-57 | the loops with their early exit flag every entry, and the list is made anew from the cache |
| `SelectBox.FilterFindsWords` | ServeurHTTPS/DjangoDirectory/ServeurHTTP/static/admin/js/SelectBox.js:37-54 | an entry is displayed if and only if it contains every word of the search, words being the longest stretches without spaces, in either case |
| `SelectBox.TokensFirst` | ServeurHTTPS/DjangoDirectory/ServeurHTTP/static/admin/js/SelectBox.js:39 | a word is split off with the blanks behind it |
| `SelectBox.SelectBox.DeleteFromCache` | ServeurHTTPS/DjangoDirectory/ServeurHTTP/static/admin/js/SelectBox.js:58-69 | the first entry with the value goes, or the first of all when there is none |
| `SelectBox.SelectBox.MoveOptions` | ServeurHTTPS/DjangoDirectory/ServeurHTTP/static/admin/js/SelectBox.js:89-97 | the loop of both moves over the options as they were, on any two boxes |
| `SelectBox.SelectBox.Move` | ServeurHTTPS/DjangoDirectory/ServeurHTTP/static/admin/js/SelectBox.js:84-116 | both moves on the caches and both lists, which show their caches afterwards |
| `SelectBox.SelectBox.Redisplay` | ServeurHTTPS/DjangoDirectory/ServeurHTTP/static/admin/js/SelectBox.js:17-35 | the list is the displayed entries in order |
| `SelectBox.OptionsShow` | ServeurHTTPS/DjangoDirectory/ServeurHTTP/static/admin/js/SelectBox.js:17-35 | the options made from a cache are its displayed entries in order, none of them selected |
| `SelectBox.MoveOfPicked` | ServeurHTTPS/DjangoDirectory/ServeurHTTP/static/admin/js/SelectBox.js:84-100 | the picked options are appended in order and no value is lost; without an earlier unpicked entry of the same value exactly the others are left, in order |
| `SelectBox.MoveAllLeavesHidden` | ServeurHTTPS/DjangoDirectory/ServeurHTTP/static/admin/js/SelectBox.js:101-116 | `move_all` appends what is displayed, and leaves exactly the hidden entries in order if and only if none of them stands before a displayed one with the same value |
| `SelectBox.TwinIsTaken` | ServeurHTTPS/DjangoDirectory/ServeurHTTP/static/admin/js/SelectBox.js:101-116 | two entries of one value on which it takes the hidden one and leaves the displayed one |
| `SelectBox.RunConserves` | ServeurHTTPS/DjangoDirectory/ServeurHTTP/static/admin/js/SelectBox.js:36-116 | over every run of searches and moves the multiset of values in both caches is conserved, chosen entries stay displayed, and with distinct values each keeps its text |

## Left out

- Regular expressions of grammars: an oracle answers every match, so nothing is said about any one language. Compiling
  a grammar (`c`), the second best guess of automatic detection, tab and line-break fix-ups (`f`) and class names on the
  block (`g`, `a`) are not part of this model.
- Highlight.HighlightText: the number of rounds is bounded by a parameter, since a grammar can make the program loop
  for good; the theorems speak of runs that end, and `HighlightRuns.TextMore` shows that the bound changes no result.
- HighlightProofs.HighlightKeepsText: a grammar with a mode that both excludes and returns its end writes that lexeme
  twice; `HighlightProofs.HighlightIsBalanced` still says where each character comes from.
- HighlightLimits.EndedRootStaysOpen: the modes that take one another's place each have an end, return none, and embed
  no language, and the first of them shares its beginning with none before it; grammars that end the root only through
  a deeper mode, or only with such flags, are not covered.
- HighlightRuns.ThrowsOnlyUnknown: one condition stands for all grammars whose own modes are never ended; which other
  grammars throw is not characterised.
- MergeStreams.Merge: the highlight stream holds no void-named element, since the engine writes only spans.
- HtmlText.Tokens: comments, and character references other than the three that the program writes. Carriage returns
  and null characters, which a browser replaces before it reads, and elements whose content a browser reads as raw text
  (`style`, `script`, `textarea`, `title`, `xmp`, `iframe`, `noembed`, `noframes`, `noscript`, `plaintext`): a block
  with a style sheet comes back with its angle brackets escaped.
- PageTree.Build: an end tag closes the innermost element of its name with all inside, or nothing. Other rules of tree
  construction are left out: implied tags, misnested formatting elements, tables, the line feed that `pre` drops, and
  letter case in SVG.
- HighlightBlock.RenderBlock: how much of a block with a quotation mark in an attribute survives is not characterised.
- Case conversion, UTF-8 and white space beyond ASCII. Percent-encoding works on bytes, and decoding does not reject
  bytes that are no UTF-8.
- Url.Parse: the query stays text; a query parser passed by the caller is a parameter of `UrlObject.Change`. Ports set
  on the object are digit strings. The default location taken from the window is a parameter.
- Property order of JavaScript objects: a query object is an ordered list, so integer-like keys are not moved to the
  front. Inherited properties are left out.
- Expansion of URI templates apart from `encodeReserved`, and everything in the client library that does input or
  output.
- Back references and the printing of a character class in the pretty printer, and its lexers: decorations are any list
  in order that starts at 0.
- Charset.Sort: the built-in sort is an insertion sort with the same order; ranges that compare equal are equal.
- Marking of today and of the selected date, captions and links in the calendar; local time zones.
- Formset.Rewrite: the prefix is literal text, not a regular expression; callbacks and the empty template row's own
  markup are left out.
- Dates.Strftime: fields other than year, month and day are a parameter; time zones are left out.
- SelectBox.SelectBox.Move: selecting options is an input. The sort of a cache and the attributes of options are left
  out.
- The C proxies, the Vanetza and Android parts and the Django views are plumbing around libraries that are not part of
  this model.
