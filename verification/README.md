# Chat assistant with web tools: a verified model of its string and loop logic

The application is a chat front end that lets a language model call three tools:
a DuckDuckGo search, a web page reader and a code runner. It runs a bounded loop of
model calls for every prompt. This project models the deterministic core of that
program in Dafny and proves properties of it:

- **Search** (`search_duckduckgo`):
  - the request URL, with the query percent-encoded the way Python's `urllib.parse.quote` does it;
  - the selection of the first `num_results` result containers and the dropping of incomplete ones;
  - the resolution of DuckDuckGo redirect links to their destination, with `urllib.parse.unquote` and without the `&rut=` tracking suffix;
  - the text block that shows the results.
- **Page text** (`read_webpage` after the parse):
  - unwanted elements are removed;
  - linked anchors are rewritten to `[ text ]( href )`;
  - the text is taken the way BeautifulSoup's `get_text()` takes it: the parser's strings inside `template`, `rt` and `rp` elements are skipped, and the strings the rewrite inserts are not;
  - the whitespace is normalised, and the text is cut to 300000 characters.
- **Missing module** (`extract_missing_module`): the `find`/slice extraction of the module name, including its quirks with fewer than two quotes, and the branch `execute_code` takes on it.
- **Agent loop**:
  - at most five model calls;
  - tools offered on calls 1 to 3 only;
  - the loop stops at the first answer without a tool request;
  - the handling of each content item;
  - the final update of the session's message list.

The supporting modules define the Python semantics the core relies on:
- `PyStr`: `in`, `find`, slicing, `split`, `join`, `strip`, `splitlines`, with the exact whitespace and line-boundary sets of Python 3;
- `Utf8`: UTF-8 encoding, and decoding with `errors='replace'`;
- `Percent`: `quote` and `unquote`, following sections 2.1 and 2.3 of RFC 3986.

The HTTP requests and the HTML parser are not modelled. A parsed search page is the sequence of its result containers, and a parsed web page is a node tree. The model API, the network and the code sandbox are fields of an `Env` record of functions, which the agent loop takes as a parameter.

## Model

| member | source | states |
|---|---|---|
| Search.SearchUrl | src/exampleapicalls.py:118-119 | the request URL is the fixed endpoint prefix followed by text made only of unreserved characters, `/` and upper-case `%XX` triples, and that text percent-decodes back to the query |
| Percent.UnquoteQuote | src/exampleapicalls.py:118 | `unquote(quote(s)) == s` for every string, non-ASCII included |
| Percent.QuoteBytesWellEncoded | src/exampleapicalls.py:118 | everything `quote_from_bytes` produces is ASCII, and is a sequence of safe characters and upper-case `%XX` triples |
| Percent.UnquoteQuoteBytes | src/exampleapicalls.py:118 | `unquote_to_bytes` gives back exactly the octets `quote_from_bytes` encoded |
| Percent.QuoteBytes | src/exampleapicalls.py:118 | the encoding is never shorter than its input octets, and it has the same length exactly when every octet is an unreserved character or `/` |
| Percent.QuoteIdentityIff | src/exampleapicalls.py:118 | `quote(s) == s` exactly when every character of `s` is unreserved or `/` |
| Percent.Unquote | src/exampleapicalls.py:140 | a string without `%` is returned unchanged |
| Utf8.DecodeEncode | src/exampleapicalls.py:118-140 | decoding the UTF-8 encoding of any string with `errors='replace'` gives the string back |
| Utf8.DecodeAscii | src/exampleapicalls.py:140 | octets below 0x80 decode one to one to the same code points |
| Search.CanonicalUrl | src/exampleapicalls.py:138-145 | a link without `duckduckgo.com/l/?uddg=` is kept as it is, and the URL resolved from a redirect link never contains `&rut=` |
| Search.RedirectHasKey | src/exampleapicalls.py:138-140 | a link that passes the redirect test contains `uddg=`, so its `split('uddg=')` has a part at index 1 |
| Search.CanonicalUrlOfRedirect | src/exampleapicalls.py:138-143 | a redirect link resolves to its destination span (from after the first `uddg=` to the next `uddg=` or the end), percent-decoded, then cut before its first `&rut=` when it has one |
| Search.DestinationIsSecondPart | src/exampleapicalls.py:140 | part 1 of `link.split('uddg=')` is the text from after the first `uddg=` up to the next `uddg=`, or to the end when there is no second one |
| PyStr.SplitSecondPart | src/exampleapicalls.py:140 | when `sep` occurs, `s.split(sep)` has at least two parts, and part 1 runs from after the first occurrence to the next occurrence or the end |
| Search.StripTrackingCut | src/exampleapicalls.py:143 | cutting at `&rut=` keeps the prefix before its first occurrence, or the whole URL when it has none |
| Search.StripTracking | src/exampleapicalls.py:142-143 | the result holds no `&rut=`; it is the URL itself when the URL has none, and otherwise the prefix before the first one |
| Search.EmptyDestinationGivesEmptyUrl | src/exampleapicalls.py:136-140 | the non-empty link `duckduckgo.com/l/?uddg=` passes the filter and resolves to an empty URL |
| Search.ExtractResults | src/exampleapicalls.py:129-151 | for `num_results >= 0` there are at most `min(num_results, #containers)` results; a negative `num_results` drops that many containers from the end first; every result has a non-empty title |
| Search.Collect | src/exampleapicalls.py:136-151 | no more results than containers, each with a non-empty title |
| Search.CollectKeepsOrder | src/exampleapicalls.py:136-151 | result `k` is the conversion of the `k`-th complete container, in increasing container order, and every complete container is represented |
| Search.ResultsInPageOrder | src/exampleapicalls.py:129-151 | the results are exactly the complete containers among the first `num_results`, converted and in page order |
| Search.AllCompleteCount | src/exampleapicalls.py:129-151 | when every container is complete there are exactly `min(num_results, #containers)` results, so nothing is padded or dropped |
| Search.NatToDecimal | src/exampleapicalls.py:322 | the numeral of a result number is all decimal digits with no leading zero: a numeral of two or more digits, and the numeral of any positive number, does not start with `0` |
| Search.DecimalRoundTrip | src/exampleapicalls.py:322 | the decimal numeral of a result number reads back as that number |
| Search.ResultLinesAt | src/exampleapicalls.py:320-325 | result `k` is shown on three consecutive lines: `"<k+first>. **<title>**"`, `"   URL: <url>"`, `"   <description>"` |
| Search.SearchBlockReadsBack | src/exampleapicalls.py:317-327 | when no field holds a newline, splitting the block on `\n` gives the header, the `Query:` line, and three lines per result in order, numbered from 1 |
| PyStr.FindFrom | src/exampleapicalls.py:138 | the result is the first index at or after the start where the substring occurs, or -1 when there is none |
| PyStr.ContainsIff | src/exampleapicalls.py:138 | `sub in s` holds exactly when `sub` occurs somewhere in `s` |
| PyStr.Find | src/exampleapicalls.py:251-252 | `str.find` returns the first index, at or after the start normalised like a slice bound, where the substring occurs; it returns -1 exactly when the start is past the end or there is no occurrence from there on |
| PyStr.SlicePrefix | src/exampleapicalls.py:129 | `s[:n]` with `n >= 0` is the first `min(n, len(s))` elements |
| PyStr.SliceDropLast | src/exampleapicalls.py:253 | `s[a:-k]` with `a >= 0` and `k > 0` runs from `a` up to `k` elements before the end, and is empty when that range is empty |
| PyStr.SliceConcat | src/exampleapicalls.py:129 | two adjacent in-range slices put together are the slice over both ranges |
| PyStr.SplitJoinRoundTrip | src/exampleapicalls.py:140-143 | joining the parts of `s.split(sep)` with `sep` gives `s` back |
| PyStr.SplitPartsLackSeparator | src/exampleapicalls.py:143 | no part of `s.split(sep)` contains `sep` |
| PyStr.SplitJoin | src/exampleapicalls.py:327 | splitting a join on a one-character separator gives the parts back when no part holds that character |
| PyStr.Strip | src/exampleapicalls.py:175-176 | `strip()` returns the slice of `s` that starts at its first non-whitespace character, with only whitespace before and after it in `s`; both ends of the result are non-whitespace; a string that already has non-whitespace ends is unchanged |
| PyStr.SkipSpace | src/exampleapicalls.py:175-176 | the scan stops at the first non-whitespace character at or after the start, or at the end, and skips only whitespace |
| PyStr.SplitLines | src/exampleapicalls.py:175 | no line holds a line boundary, and a string without boundaries is one line, or no line when it is empty |
| PyStr.SplitLinesBreak | src/exampleapicalls.py:175 | the lines break at every boundary: text without a boundary, one boundary (a boundary character, or `\r\n` as one), then anything, gives that text as a line followed by the lines of the rest |
| PyStr.SplitLinesKeepsText | src/exampleapicalls.py:175 | the lines, concatenated, are the text with its line-boundary characters removed |
| PageText.RemoveUnwantedClean | src/exampleapicalls.py:165-167 | after the removal no `script`, `style`, `nav`, `header` or `footer` element is left at any depth |
| PageText.RemoveUnwantedIdentityIff | src/exampleapicalls.py:165-167 | the removal leaves a tree unchanged exactly when the tree has no unwanted element |
| PageText.RemoveUnwantedOne | src/exampleapicalls.py:165-167 | a string node is kept, a wanted element is kept with its children cleaned, and an unwanted element is dropped with its subtree |
| PageText.RemoveUnwantedAppend | src/exampleapicalls.py:165-167 | the removal works node by node: on two forests side by side it gives the two removals side by side, so wanted siblings survive |
| PageText.TextInAppend | src/exampleapicalls.py:172-175 | the text of two node sequences side by side is the concatenation of their texts, inside or outside a hiding element |
| PageText.HiddenParsedText | src/exampleapicalls.py:175 | inside a `template`, `rt` or `rp` element the parser's strings contribute no text, at any depth |
| PageText.HiddenElementText | src/exampleapicalls.py:175 | a `template`, `rt` or `rp` element as parsed adds nothing to the page's text, whatever it holds |
| PageText.HiddenAnchorText | src/exampleapicalls.py:169-175 | a linked anchor inside a `template`, `rt` or `rp` element still gives its markup, `"[  ]( " + href + " )"`, because the inserted string counts while the anchor's own strings do not |
| PageText.LinkedAnchorText | src/exampleapicalls.py:169-173 | an anchor with a non-empty `href` becomes one inserted string, exactly `"[ " + text + " ]( " + href + " )"`, which counts as text wherever it stands; `text` is the anchor's text as seen where it stands |
| PageText.UnlinkedAnchorText | src/exampleapicalls.py:169-173 | an anchor without an `href`, or with an empty one, keeps its plain text |
| PageText.RewriteInAt | src/exampleapicalls.py:169-173 | node `i` of the rewrite is the markup of a linked anchor, the same string node, or the same element with rewritten children |
| PageText.RewriteInClean | src/exampleapicalls.py:169-173 | after the rewrite no linked anchor is left at any depth |
| PageText.RewriteAnchorsIdentityIff | src/exampleapicalls.py:169-173 | the rewrite leaves a tree unchanged exactly when it has no linked anchor |
| PageText.DoubleSpaceIff | src/exampleapicalls.py:176 | `"  " not in s` holds exactly when no two adjacent characters are spaces |
| PageText.PhraseChunksGood | src/exampleapicalls.py:176-177 | stripped pieces that are one line and have no double space are kept only when non-empty, and then have non-whitespace ends |
| PageText.LineChunksGood | src/exampleapicalls.py:175-177 | every chunk drawn from the lines is non-empty, one line, single-spaced, with non-whitespace ends |
| PageText.JoinChunksNormalised | src/exampleapicalls.py:177 | joining such chunks with one space gives normalised text, which is empty exactly when there are no chunks |
| PageText.CollapseNormalised | src/exampleapicalls.py:175-177 | the normalised text has no line boundary, no `"  "`, and no whitespace at either end |
| PageText.CollapseKeepsNormalised | src/exampleapicalls.py:175-177 | text that is already normalised comes through the normalisation unchanged |
| PageText.CollapseIdempotent | src/exampleapicalls.py:175-177 | normalising twice is the same as normalising once |
| PageText.CollapseFixpointIff | src/exampleapicalls.py:175-177 | the normalisation leaves a string unchanged exactly when the string is normalised |
| PageText.CollapseKeepsWords | src/exampleapicalls.py:175-177 | the normalisation only removes or rewrites whitespace: the non-whitespace characters of the text survive, in order |
| PageText.PageTextOf | src/exampleapicalls.py:179 | the page text is a prefix of the normalised text of at most 300000 characters; it is the whole normalised text when that fits, and exactly 300000 characters when it does not |
| PageText.PageTextShape | src/exampleapicalls.py:165-179 | the page text has at most 300000 characters, no line boundary, no `"  "`, and no leading whitespace |
| PageText.PageTextKeepsWords | src/exampleapicalls.py:175-179 | the non-whitespace characters of the page text are the first ones of the document text, in order, and all of them when the normalised text fits in 300000 characters |
| PageText.ReadWebpage | src/exampleapicalls.py:155-182 | a fetched page gives its page text, which has at most 300000 characters, no line boundary and no `"  "`; a failed fetch gives `Error reading webpage: ` followed by the exception text |
| MissingModule.ExtractMissingModule | src/exampleapicalls.py:247-257 | the result is absent exactly when `No module named` does not occur in the message |
| MissingModule.TwoQuotes | src/exampleapicalls.py:251-253 | with two `'` characters or more, the result is the text strictly between the first two, and it contains no `'` |
| MissingModule.NoQuoteQuirk | src/exampleapicalls.py:251-253 | without any `'`, the slice end is -1 and the result is the whole message without its last character |
| MissingModule.OneQuoteQuirk | src/exampleapicalls.py:251-253 | with exactly one `'`, the result runs from after it to before the message's last character, and is empty when the quote is one of the last two characters |
| MissingModule.StandardMessage | src/exampleapicalls.py:213-216 | for Python's own message, after a traceback without `'` and followed by any further output, the module name comes out exactly, and it is installed when it is non-empty |
| MissingModule.ClassifyFailure | src/exampleapicalls.py:213-240 | when `ModuleNotFoundError` occurs, the module is installed exactly when the extracted name is present and non-empty, and under that name; the plain error branch is taken exactly when `ModuleNotFoundError` does not occur |
| AgentLoop.HandleItem | src/exampleapicalls.py:301-400 | each item adds at most one message at the end. A text becomes an assistant message. A web search appends the search block of its query and results, and raises without a query or a page. A page read appends `Content from <url>: ` and the page text. New non-empty code appends the run's log block and is remembered; repeated code appends the already-executed notice; missing or empty code and an unknown tool change nothing |
| AgentLoop.HandleItems | src/exampleapicalls.py:301-400 | the items of one response only append messages, at most one per item |
| AgentLoop.TextOnlyReply | src/exampleapicalls.py:301-306 | a response of texts only has no tool request and appends its texts in order as assistant messages |
| AgentLoop.SameCodeTwice | src/exampleapicalls.py:360-400 | the same code requested twice in a row is run once; the second request only adds "The specified code has already been executed." |
| AgentLoop.LoopCallNumbers | src/exampleapicalls.py:284-290 | the calls are numbered on from the calls already made, and their count never exceeds the bound of five |
| AgentLoop.LoopToolGating | src/exampleapicalls.py:296 | a call offers the tools exactly when its number is below `max_iterations - 1` |
| AgentLoop.LoopOnlyLastAnswers | src/exampleapicalls.py:403-404 | every call but the last asked for a tool |
| AgentLoop.LoopEndsOnAnswer | src/exampleapicalls.py:289-290 | a normal end before the fifth call comes from a response without a tool request |
| AgentLoop.LoopSentGrow | src/exampleapicalls.py:286-304 | the first call sends the starting list, and every call sends an extension of the starting list and of the previous call's list |
| AgentLoop.LoopFinalExtends | src/exampleapicalls.py:286-304 | on a normal end the final local list extends the starting list and every list a call sent |
| AgentLoop.PromptCalls | src/exampleapicalls.py:274-298 | an empty prompt makes no call; any other prompt makes 1 to 5 calls numbered 1, 2, …, offers the tools on calls 1 to 3 only, and stops at the first answer without a tool request |
| AgentLoop.PromptSession | src/exampleapicalls.py:274-409 | an empty prompt leaves the session unchanged; otherwise, after a normal end the session list equals the local list and extends the old list plus the prompt; after an exception it is the old list plus the prompt; the first call sends the old list plus the prompt |

## Left out

- The Streamlit UI is not modelled: the page setup, the API-key form, the displayed message list, and the rerun on an invalid key. They are presentation and widget state.
- The Anthropic client call is the oracle `Env.respond`. It receives the call number, the messages and whether tools are offered. The model name, temperature and token limit are not modelled, because they only parameterise a remote call.
- Two things are parameters rather than models, because they are network I/O and a foreign parser:
  - the HTTP requests of `search_duckduckgo` and `read_webpage`;
  - the BeautifulSoup parse.

  A search page is given as its `div.result` containers. A web page is a tree of string nodes and elements, or the text of the exception its fetch raised.
- BeautifulSoup details below the node tree are not modelled: comments, CDATA, multi-valued attributes, and the parser's own placement of strings in `template`, `rt` and `rp` elements (the tree is taken as given). Of BeautifulSoup's string classes only the one that matters to the text is kept: a parsed string under `template`, `rt` or `rp` is skipped, and any other string counts. Tag names are taken as the parser reports them, lower-cased.
- `execute_code` is the oracle `Env.runCode`, because it creates a virtual environment and runs subprocesses. Only its decision on a failed run, `ClassifyFailure`, is modelled.
- The display-only texts of the read_webpage and code tools are not modelled, because they only reach the screen:
  - the `📄 **Webpage Content**` block and its 500-character preview;
  - the `💻 **Code to be Executed:**` block.

  The messages sent back to the model are modelled, up to the parser details listed above.
- Tool inputs of the wrong JSON type are not modelled; a `num_results` that is not an integer is one example. The input keys are optional strings, plus an optional integer for `num_results`.
- Content items of kinds other than text and tool use are not modelled.
- Search.ExtractResults: a non-empty URL is not claimed for every result. A redirect link whose destination is empty passes the filter, because the filter tests the raw link, and it then resolves to an empty URL (`Search.EmptyDestinationGivesEmptyUrl`).
- The comment next to the tool gating says the tools are removed in the final iteration. The code removes them on calls 4 and 5, and the model follows the code (`AgentLoop.LoopToolGating`).
- `MissingModule.ExtractMissingModule` takes the first `'` of the whole error output, not the first one after `No module named`. A traceback line that echoes source code containing a quote changes the extracted name. `MissingModule.TwoQuotes` states this general behaviour; `MissingModule.StandardMessage` covers the case of a traceback without quotes.
