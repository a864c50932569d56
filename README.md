# linediff in Dafny

A model of the Go library `linediff`: a token-level text differ.

**Token reader.** `TokenReader` is a cursor over the runes of one input. It offers three scanning primitives:
- `AcceptToken` reads one exact literal, or nothing.
- `Accept` reads the longest run of runes from a list.
- `Until` reads the longest run of runes outside a list. A NUL rune also stops it.

**Splitters.** Two splitters are built on these primitives:
- `SplitSpaces`, the default splitter, returns words and single-space tokens.
- The delimiter-set splitter of the `diffhtml` command returns words and single delimiter runes.

**Diff engine.** `DiffSplit` splits two texts A and B into tokens. It then makes one greedy forward pass over both token lists and records every token in an append-only `DiffSet`, tagged `Same`, `Added` (only in B) or `Removed` (only in A). At a mismatch the pass looks ahead up to `K` tokens (`DiffCrossConfidence`). At each distance it checks the B side before the A side. When nothing resolves the mismatch within `K`, it falls back to a one-for-one substitution.

**How the model is organised.**
- The imperative code stays imperative:
  - `TokenReader` and `DiffSet` are classes.
  - The scanning methods, both splitters, `DiffSet.Add`, `DiffSet.String` and `DiffSplit` are loops with invariants.
- Each method is proved against a specification function:
  - `AcceptEnd` and `UntilEnd` for the scans.
  - `SpaceTokens` and `DelimTokens` for the splitters.
  - `Render` for `String`.
  - `Align`, built round by round from `StepAt`, for `DiffSplit`.
- The properties the library promises are proved as lemmas about those functions. The main theorem is `AlignProjections`: the diff is lossless. Dropping the `Added` entries gives back exactly A's tokens, and dropping the `Removed` entries gives back exactly B's.

Files:
- `wrappers.dfy`: `Option`, used for a nil reader or a nil splitter.
- `tokenbuf.dfy`: module `TokenBuf`.
- `data.dfy`: module `DiffHtml`, the delimiter splitter.
- `diff.dfy`: module `LineDiff`.

## Model

| member | source | states |
|---|---|---|
| TokenBuf.AcceptEnd | tokenbuf.go:91-104 | The scan stops at the first rune outside the match set, or at the end of the input. Every rune before that point is in the set. |
| TokenBuf.UntilEnd | tokenbuf.go:118-131 | The scan stops at the first rune that is NUL or in the match set, or at the end of the input. Every rune before that point is neither. |
| TokenBuf.UntilEndIs | tokenbuf.go:118-131 | Any position with UntilEnd's two properties is UntilEnd, so the stopping point is unique. |
| TokenBuf.AcceptEndIs | tokenbuf.go:91-104 | Any position with AcceptEnd's two properties is AcceptEnd. |
| TokenBuf.TokenReader.FromString | tokenbuf.go:42-48 | A string reader reads that string from its first rune. |
| TokenBuf.TokenReader.FromReader | tokenbuf.go:54-61 | A reader can only be built over a non-nil reader (the nil case panics). It reads that reader's runes from the first. |
| TokenBuf.TokenReader.ReadRune | tokenbuf.go:69-70 | Returns the rune at the cursor and advances by one, or reports end of input exactly when the cursor is at the end, without moving. |
| TokenBuf.TokenReader.UnreadRune | tokenbuf.go:101 | Moves the cursor back by one rune. |
| TokenBuf.TokenReader.UnreadNumRunes | tokenbuf.go:75 | Moves the cursor back by n runes. |
| TokenBuf.TokenReader.AcceptToken | tokenbuf.go:63-80 | Succeeds iff the input continues with exactly `token` (case-sensitive); it then returns the token and advances by its length. On a mismatch or at end of input it returns ("", false) with the cursor back where it started. The empty token always succeeds and consumes nothing. |
| TokenBuf.TokenReader.Accept | tokenbuf.go:82-105 | Consumes and returns the maximal run of runes in the list; the first non-member is left unread. `found` holds iff that run is non-empty, so a failed Accept leaves the cursor unchanged. |
| TokenBuf.TokenReader.Until | tokenbuf.go:109-132 | Consumes and returns the maximal run of runes that are neither in the list nor NUL; the stopping rune is left unread. `found` holds iff that run is non-empty, so a failed Until leaves the cursor unchanged. |
| TokenBuf.AcceptSpaces | tokenbuf.go:28-34 | The inner AcceptToken(" ") loop consumes the maximal run of spaces and returns one " " token per space. |
| TokenBuf.SpaceTokens | tokenbuf.go:19-36 | The specification of SplitSpaces: each round is the word Until(" ") reads, then one " " token per space AcceptToken(" ") reads after it. The split ends at the first round whose Until finds nothing. |
| TokenBuf.SplitSpaces | tokenbuf.go:19-36 | Returns exactly SpaceTokens of its input: each round is a word read by Until(" ") followed by one " " per following space, and the split ends at the first round where Until finds nothing. |
| TokenBuf.SpaceTokensEmpty | tokenbuf.go:22-26 | No tokens iff the input is empty or starts with a space or NUL. In particular, empty input gives no tokens. |
| TokenBuf.SpaceTokensShape | tokenbuf.go:23-34 | Every token is " " or a non-empty word with no space and no NUL. |
| TokenBuf.SpaceTokensRound | tokenbuf.go:23-34 | One round's word and spaces, joined, are exactly the input runes the round consumed. |
| TokenBuf.SpaceTokensConcat | tokenbuf.go:22-35 | From any position, the joined tokens are the input up to its next NUL, or empty when the input there starts with a space. |
| TokenBuf.SpaceTokensReconstruct | tokenbuf.go:23-26 | The joined tokens equal the input iff the input is empty or does not start with a space, and contains no NUL. |
| TokenBuf.SpaceTokensExample | tokenbuf_test.go:22-25 | "hello  world" splits into "hello", " ", " ", "world": a run of two spaces gives two tokens. |
| DiffHtml.DelimTokens | cmd/diffhtml/data.go:14-32 | The specification of the delimiter splitter: each round is the word Until reads, when it is not empty, then the delimiter rune after it, when there is one. The split ends at the first round that emits neither. |
| DiffHtml.AcceptDelimiter | cmd/diffhtml/data.go:21-27 | Trying the delimiter runes in order with AcceptToken succeeds iff the next rune is a delimiter. On success it emits that one rune and consumes exactly one rune; otherwise the cursor does not move. |
| DiffHtml.SplitDelimiters | cmd/diffhtml/data.go:10-34 | The splitter loop returns exactly DelimTokens of what is left to read: per round, the word Until finds (if any), then the delimiter rune after it (if any). It stops at the first round that emits nothing. It leaves the caller's reader at the end of the input when NUL is a delimiter, and at the next NUL otherwise. |
| DiffHtml.DelimiterSplit | cmd/diffhtml/data.go:9-35 | Applied to a string, the splitter returns DelimTokens of the whole string. |
| DiffHtml.DelimTokensShape | cmd/diffhtml/data.go:15-28 | Every token is a single delimiter rune, or a non-empty word with no delimiter and no NUL. |
| DiffHtml.DelimTokensSeparated | cmd/diffhtml/data.go:15-28 | A word is never followed directly by another word: the next token after a word is a delimiter. |
| DiffHtml.NulIndexSkip | tokenbuf.go:124 | Consuming runes that are not NUL leaves the position of the next NUL unchanged. |
| DiffHtml.RoundKeepsNul | cmd/diffhtml/data.go:15-28 | Without NUL among the delimiters, a round never reads a NUL, so the next NUL is where it was before the round. |
| DiffHtml.DelimRoundConcat | cmd/diffhtml/data.go:15-28 | One round's word and delimiter, joined, are exactly the runes it consumed. |
| DiffHtml.DelimTokensRound | cmd/diffhtml/data.go:14-32 | A round that emits something consumes at least one rune, so the loop terminates. The joined tokens are that round's runes followed by the join of the rest. |
| DiffHtml.DelimTokensConcatAll | cmd/diffhtml/data.go:14-32 | With NUL among the delimiters, the joined tokens from any position are the rest of the input. |
| DiffHtml.DelimTokensConcatNul | cmd/diffhtml/data.go:14-32 | Without NUL among the delimiters, the joined tokens from any position are the input up to its next NUL. |
| DiffHtml.DelimTokensConcat | cmd/diffhtml/data.go:14-32 | The joined tokens are always a prefix of the rest of the input: all of it when NUL is a delimiter, up to the next NUL otherwise. |
| DiffHtml.DelimTokensReconstruct | cmd/diffhtml/data.go:14-32 | The joined tokens equal the input iff NUL is a delimiter or the input has no NUL. |
| DiffHtml.DelimTokensEmpty | cmd/diffhtml/data.go:29-31 | No tokens iff the input is empty or starts with a NUL that is not a delimiter. In particular, empty input gives no tokens. |
| DiffHtml.LeadingDelimiter | cmd/diffhtml/data.go:16-20 | A leading delimiter is emitted as the first token, whereas SplitSpaces returns no tokens at all for a leading space. |
| DiffHtml.DelimTokensExample | cmd/diffhtml/data.go:14-32 | With ", " as delimiters, "a, b" splits into "a", ",", " ", "b". |
| LineDiff.RenderEntry | diff.go:24-34 | How String writes one entry: a Same segment as it is, an Added one as (++s++), a Removed one as (--s--). |
| LineDiff.Render | diff.go:21-37 | The text String builds: every entry rendered, in order. |
| LineDiff.RenderSame | diff.go:25-26 | Same entries are written as they are, so all-Same entries render to their tokens joined. |
| LineDiff.DiffSet.constructor | diff.go:77 | A new DiffSet has no segments and no tags. |
| LineDiff.DiffSet.Add | diff.go:39-49 | Appends the tokens, in order, to the segments, and that many copies of the tag to the tags. Earlier entries are unchanged, the two lists stay equally long, and empty tokens change nothing. |
| LineDiff.DiffSet.AddRemoval | diff.go:51-53 | Appends the tokens tagged Removed. |
| LineDiff.DiffSet.AddAddition | diff.go:55-57 | Appends the tokens tagged Added. |
| LineDiff.DiffSet.AddSimilarity | diff.go:59-61 | Appends the tokens tagged Same. |
| LineDiff.DiffSet.String | diff.go:21-37 | Writes every entry in order: Same as is, Added as (++s++), Removed as (--s--). The `continue` after a Removed-then-Added pair does not change the output. |
| LineDiff.CrossFrom | diff.go:107-120 | The look-ahead settles on a distance j within K where B's token j further on equals A's token (B side), or where A's token j further on equals B's token and the B side does not resolve (A side). |
| LineDiff.CrossFromMisses | diff.go:107-120 | Below the distance settled on, and at every distance when nothing resolves, neither side resolves. So the first resolving distance wins, with the B side first. |
| LineDiff.StepAt | diff.go:100-123 | Each round at (ai, bi) consumes at least one token of A and one of B and stays within both lists. |
| LineDiff.AlignFrom | diff.go:85-124 | The entries the pass records from positions (ai, bi). Once A is used up, B's remaining tokens are Added. Once B is used up, A's remaining tokens are Removed. Otherwise one StepAt round is recorded and the pass goes on from where that round stopped. |
| LineDiff.Align | diff.go:76-124 | The entries DiffSplit records for two token lists: the pass from the start of both. |
| LineDiff.StepProjections | diff.go:100-123 | Each round consumes A's tokens from ai to its new position (its non-Added entries) and B's from bi to its new position (its non-Removed entries). |
| LineDiff.MatchConsumes | diff.go:101-104 | A match records the common token once as Same, and both positions move on by one. Its projections consume that token on both sides. |
| LineDiff.BSideConsumes | diff.go:108-112 | A B-side resolution records B's j skipped tokens as Added and then the common token as Same. B moves on by j+1 and A by 1, and the projections consume exactly those tokens. |
| LineDiff.ASideConsumes | diff.go:114-118 | An A-side resolution records A's j skipped tokens as Removed and then the common token as Same. A moves on by j+1 and B by 1, and the projections consume exactly those tokens. |
| LineDiff.NoMatchConsumes | diff.go:121-123 | The straight diff records exactly A's token as Removed and then B's token as Added, and moves on by one on each side, consuming one token of each. |
| LineDiff.AlignFromProjections | diff.go:85-124 | From any pair of positions, the entries not Added are A's remaining tokens and the entries not Removed are B's remaining tokens. |
| LineDiff.AlignProjections | diff.go:71-126 | The diff is lossless: Same and Removed segments, in order, are split(a); Same and Added segments, in order, are split(b). |
| LineDiff.AlignFromIdentical | diff.go:101-104 | Identical token lists are recorded as Same throughout. |
| LineDiff.RenderIdentical | diff.go:101-104 | Diffing a token list against itself gives all-Same entries that render to the tokens joined. Two empty lists give no entries. |
| LineDiff.DiffIdentical | diff_test.go:86-90 | Diffing a text against itself with SplitSpaces renders the text unchanged, as long as SplitSpaces rebuilds it. |
| LineDiff.TranspositionExample | diff_test.go:116-120 | For "a string here" against "string here a" with K = 3, the entries are a and " " Removed, "string here" Same, then " " and a Added. |
| LineDiff.CrossCompare | diff.go:107-120 | The look-ahead loop over j = 1..K returns exactly what CrossFrom specifies. |
| LineDiff.Round | diff.go:100-123 | One round appends exactly StepAt's entries to the DiffSet. The offset increments it returns move ai and bi to StepAt's new positions (both zero for a match or a straight diff). |
| LineDiff.DiffSplit | diff.go:71-126 | Refuses a missing splitter. Otherwise it returns a new DiffSet, owned by the caller, that holds exactly Align of the two token lists, including the capacity diffs once one side is used up; by AlignProjections it is lossless. |
| LineDiff.Diff | diff.go:63-65 | Diff is DiffSplit with SplitSpaces: it returns a new DiffSet whose entries are Align of the SpaceTokens of both texts. |

## Left out

- The rune buffer under `TokenReader` is not part of this model: its buffering, buffer sizes and refills. The reader is the whole input as a `string` plus a cursor. `ReadRune`, `UnreadRune` and `UnreadNumRunes` are modelled as moving that cursor.
- Reading from an `io.Reader` and decoding UTF-8 are left out, because they are I/O. Runes are `char`. A Go `nil` reader or splitter is `None`, and the panic on it is a precondition.
- The `Splitter` interface and the `SplitterFunc.Split` adapter (tokenbuf.go:9-17) are a plain function value `string -> seq<string>`, because they only forward the call.
- `getSplitter` wraps a function of a `*TokenReader` in a `SplitterFunc`, which takes a `string` (cmd/diffhtml/data.go:10). `SplitDelimiters` models the loop on a reader, and `DelimiterSplit` runs it on a fresh reader over a string.
- `TokenBuf.TokenReader.AcceptToken`: at end of input the source calls `UnreadNumRunes(i + 1)` after reading only `i` runes (tokenbuf.go:70-72). The model unreads `i`, restoring the cursor to where it was. That is what the function's own comment promises, and what `SplitSpaces` needs at the end of the input to return what its tests expect. What the rune buffer does with the extra unread is not part of this model.
- `DiffCrossConfidence` is a mutable package variable. It is the parameter `K` of the engine, so the model does not capture changing it mid-diff from elsewhere.
- `LineDiff.DiffSplit`: `K` is a `nat`, so the model cannot hold a negative `DiffCrossConfidence`. Go treats a negative value like zero: the look-ahead loop does not run and every mismatch is a straight diff. `K = 0` covers both.
- `LineDiff.Diff` passes the specification function `SpaceTokens` as the splitter, not the `SplitSpaces` method, because a Dafny method cannot be a function value. `TokenBuf.SplitSpaces` is proved to return exactly `SpaceTokens` of its input.
- `Tag` is an `int` in Go. The model has only its three named values, so `String`'s silent skip of an unknown tag is not modelled.
- Inner loops and the labelled `continue loop` of `DiffSplit` are modelled as helper methods returning to the outer loop, with no change in behaviour:
  - The `SplitSpaces` space loop is `AcceptSpaces`.
  - The delimiter loop of `getSplitter` is `AcceptDelimiter`.
  - The cross comparison is `CrossCompare`.
  - One round of `DiffSplit` is `Round`.
- `LineDiff.TranspositionExample` states the transposition test's result as the recorded entries, not as the rendered string. `String`'s rendering of entries is proved in general by `DiffSet.String` and `Render`.
- The `diffhtml` command's `main`, flag parsing, CSV and file handling, and HTML rendering (`diffRecord.DiffHTML` and the `Iterator` it calls) are I/O and presentation outside the diff core.
