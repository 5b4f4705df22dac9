# Nuncio: verified models of the sync, filter, contact, audit and calendar cores

This project models the parts of the Nuncio mail client in which one piece of code has to agree with another, and proves that agreement, or exactly where it ends:

- **IMAP folder sync** (`ImapCheckpoint`, `ImapSync`, `ImapProtocol`). The stored checkpoint `"{uidvalidity}:{uidnext}"`, its resolution into a `UID FETCH` range, the fetch loop and the next checkpoint; then a transition system in which a server delivers, expunges and recreates a mailbox around the client's syncs. Server behaviour follows sections 2.3.1.1 and 6.4.8 of RFC 3501.
- **The filter language** (`NsqlAst`, `NsqlScanner`, `NsqlActions`, `NsqlPreprocess`, `SqlSubset`, `SqlCase`, `NsqlConvert`, `NsqlFields`, `NsqlRule`, `NsqlTexts`, and for the round trip `NsqlPieces`, `NsqlReading`, `NsqlPrinted`, `NsqlReparse`, `NsqlPrecedence`, `NsqlReread`, `NsqlRoundTrip`, `NsqlCut`, `NsqlFront`, `NsqlQuoted`, `NsqlLost`, `NsqlExact`, `NsqlWidened`, `NsqlWordFree`, `NsqlStable`, `NsqlDropped`). Printers, quote-aware scanners, the regular-expression rewrites, a lexer (comments and quoted names included) and precedence-climbing parser for the part of SQL that conditions use, the conversion with its depth bound, what printing a rule and parsing it again gives back, and what every parsed rule is like.
- **The filter engine and validator** (`FilterEval`, `FilterSemantics`, `FilterEngine`, `FilterScope`, `FilterMeaning`, `FilterValidator`). Evaluation of conditions, the cache of compiled patterns, the active set in stable priority order, preview, reload, the accounts a target with wildcards applies to, and the validator passes measured against the evaluator.
- **vCards** (`VCard`, `VCardReading`, `VCardRoundTrip`). Printer, line unfolding (section 3.2 of RFC 6350), parser, what any property line does, and the exact contacts that survive the round trip.
- **The WORM audit chain** (`WormAudit`) and **recurrence windows** (`Recurrence`).

What the functions that model the code compute is stated against definitions that do not mention them: a condition's meaning by field and operator (`FilterSemantics.Holds`), the message a MAC is fed by its bytes (`WormAudit.IsLayout`), a property line, a label, an expression, an account clause or an action by its text.

Code that loops over mutable locals, and the engine's cache field, is modelled by methods with loops and by classes; each such method is tied to a function of its inputs, and the theorems are about those functions. Pure code is modelled by functions and datatypes. `Text`, `Decimal` and `Wrappers` hold the standard-library operations that the code relies on.

Libraries are parameters with stated assumptions: `Unicode` (case mapping and character classes; the usual tables on ASCII, letters are alphanumeric, whitespace is in no word, and uppercasing outside ASCII yields no ASCII characters but letters), `Libraries` (the regular-expression compiler; a compiled pattern is known by what it matches, and `FilterScope.ReadsItems` says what that is for patterns of plain characters, `.` and `.*`), `Calendar` (recurrence rules unfold to strictly increasing times), `Hmac` and `Sha256` (any functions into 32 bytes).

Where the documentation and the code disagree, the model follows the code:

- The generator is called lossless (`crates/nuncio-filter/src/codegen.rs:1`). `NsqlExact.RuleRoundTrips` says exactly which rules without header fields come back. The printer puts a backslash before a single quote and the SQL dialect knows no such escape, so the quote ends the literal, and the rest of the value is read as SQL, comments included. That may fail to parse or parse to something else; either way the literal is read with a backslash where its quote stood, and the rule is lost (`NsqlLost.QuotedRuleIsLost`). `FilterMeaning.QuoteWidensRule` is a rule for one subject that comes back firing on every message with a non-empty plain body. Literals that complete a header pattern are lost as well (`NsqlLost.HeaderRuleIsLost`), and so are targets whose quotes expose an account clause (`NsqlExact.AccountRuleIsLost`); connectives that are not pairs come back nested, negative numbers and one-item lists outside IN do not read back, and the words CONTAINS and MATCHES are rewritten inside literals. `FilterMeaning.KeywordInLiteralChangesMeaning` is a rule that stops firing.
- The repository's own check runs the loop on parsed rules. `NsqlStable.ParsedRuleIsStable` shows what is left to fail there when nothing holds a single quote: a list outside IN from which the parser dropped elements. `NsqlDropped.DroppedElementIsUnstable` is such a text.
- The vCard parser is called the true inverse of the printer (`crates/nuncio-contacts/src/parser.rs:217-219`). `VCardRoundTrip.VCardRoundTrips` gives the exact condition; `VCardRoundTrip.GivenNameAloneIsLost` and `VCardRoundTrip.SecondPrimaryIsLost` are contacts that fail it. Folding is transparent to the unfolded text but not to the envelope check made before unfolding (`VCardRoundTrip.FoldedEnvelopeIsRejected`).
- Pass 5 claims to find impossible conditions. For any number of size conditions in any order, `FilterValidator.RejectedThoughPossible` says exactly which possible ones it rejects (the smallest is `size >= n AND size <= n`) and `FilterValidator.AcceptedThoughImpossible` exactly which impossible ones it accepts: an earlier bound is overwritten (`FilterValidator.OverwrittenBound`), an exact size is not looked at (`FilterValidator.FixedSizeOverlooked`), or the bounds lie too close or too low.
- A target such as `%@kof22.com` is documented as a wildcard pattern (`crates/nuncio-filter/src/ast.rs:261`). Its dot is not escaped and stands for any character (`FilterScope.DotIsAnyCharacter`); `FilterScope.SuffixIsAlmostExact` says which accounts are let in for that.
- An `ON ACCOUNT` at the very end of a rule makes the parser slice past the end of the text (`NsqlRule.OnAccountPanics`, `NsqlRule.BareAccountClausePanics`). Such a slice is the outcome `Panic` in the model.
- A stored boundary can move backwards when the server leaves out UIDNEXT: `ImapProtocol.BoundaryDecreasesExactly` says at exactly which syncs, on every run, and `ImapProtocol.BoundaryCanDecreaseWithoutUidNext` gives a run that gets there. Nothing is skipped for it.

## Model

| member | source | states |
|---|---|---|
| ImapCheckpoint.CheckpointCodec | crates/nuncio-mail/src/imap.rs:101-126 | a written checkpoint resumes at its boundary exactly under the UIDVALIDITY it was written for; otherwise the change is reported with the stored one |
| ImapCheckpoint.PaddedCheckpointRead | crates/nuncio-mail/src/imap.rs:101-126 | two numerals around a colon are resolved so with any whitespace around them, and a next UID of zero is corrupt |
| ImapCheckpoint.BareTextIsCorrupt | crates/nuncio-mail/src/imap.rs:98-117 | text without the delimiter, the resync marker included, never narrows a fetch |
| ImapCheckpoint.FormatInjective | crates/nuncio-mail/src/imap.rs:723-724 | different checkpoints have different texts |
| ImapCheckpoint.SequenceSetRead | crates/nuncio-mail/src/imap.rs:83-90 | a server reads the printed sequence set as the lower end the range stands for |
| ImapCheckpoint.AtMostOneRedelivered | crates/nuncio-mail/src/imap.rs:74-90 | `n:*` selects at most one message below n, the mailbox's highest, and only when nothing at or above n exists |
| ImapSync.SyncFolderMessages | crates/nuncio-mail/src/imap.rs:604-731 | the fetch loop succeeds exactly when every item can be read and returns the UIDs in order, otherwise the error of the first item that cannot; the next checkpoint is the text of UIDVALIDITY and UIDNEXT, else of one past the highest UID seen, else the old one or the resync marker |
| ImapSync.MaxUidBounds | crates/nuncio-mail/src/imap.rs:605-627 | the running maximum bounds every UID and was itself read |
| ImapProtocol.SyncDeliversEverything | crates/nuncio-mail/src/imap.rs:572-731 | a successful sync delivers every message present when its FETCH is answered, whatever the server left unreported and whatever arrived after SELECT |
| ImapProtocol.NextBoundary | crates/nuncio-mail/src/imap.rs:721-728 | the stored text resumes at the derived boundary or where the previous one did |
| ImapProtocol.InvInductive | crates/nuncio-mail/src/imap.rs:572-731 | every server and client step keeps the invariant: the stored boundary is one the mailbox has reached, everything below it has been delivered, and deliveries are never forgotten |
| ImapProtocol.NoMessageSkipped | crates/nuncio-mail/src/imap.rs:42-48 | over every run, messages below a still-valid boundary have been delivered, and what a successful sync saw stays delivered |
| ImapProtocol.DeliveredWereAssigned | crates/nuncio-mail/src/imap.rs:604-730 | over every run, only messages the mailbox assigned are ever reported |
| ImapProtocol.BoundaryNeverDecreases | crates/nuncio-mail/src/imap.rs:721-728 | over every stretch of a run with one UIDVALIDITY and reported UIDNEXT, the stored boundary is never lost and never decreases |
| ImapProtocol.BoundaryDecreasesExactly | crates/nuncio-mail/src/imap.rs:721-728 | on every run, until the mailbox is recreated, a boundary for its UIDVALIDITY is never lost, and a step makes it smaller exactly when it is a sync with UIDVALIDITY but no UIDNEXT reported on a non-empty mailbox whose messages all lie at least two below the boundary |
| ImapProtocol.BoundaryCanDecreaseWithoutUidNext | crates/nuncio-mail/src/imap.rs:721-728 | for every UIDVALIDITY, message and higher boundary, a run reaches a state from which a sync without UIDNEXT stores one past that message |
| ImapProtocol.ResumedSyncRedeliversAtMostOne | crates/nuncio-mail/src/imap.rs:578-602 | a resumed sync returns at most one message below its boundary, and then nothing else |
| NsqlScanner.FindKeywordOutsideQuotes | crates/nuncio-filter/src/parser.rs:546-583 | the UTF-8 byte offset of the first unquoted, delimited, case-insensitive occurrence, or None exactly when there is none |
| NsqlScanner.KeywordCuts | crates/nuncio-filter/src/parser.rs:133-140 | both cuts made at the returned byte offset fall on character boundaries and the three parts rebuild the text |
| NsqlScanner.KeywordAfterQuiet | crates/nuncio-filter/src/parser.rs:546-583 | after text in which the keyword cannot start, the keyword itself is the first occurrence |
| NsqlScanner.SplitCommaOutsideQuotes | crates/nuncio-filter/src/parser.rs:585-611 | the comma loop computes the split of the text at unquoted commas |
| NsqlActions.ParseActions | crates/nuncio-filter/src/parser.rs:456-517 | the action loop reads the chunks in order, skips blank ones and stops at the first bad one |
| NsqlActions.PlainActionRead | crates/nuncio-filter/src/parser.rs:465-513 | MARK READ, MARK UNREAD, FLAG, UNFLAG and DELETE in any case are those actions |
| NsqlActions.TargetedActionRead | crates/nuncio-filter/src/parser.rs:465-513 | MOVE TO, COPY TO, FORWARD TO and CALL WEBHOOK in any case, whitespace, and a target in quotes of either kind or bare are those actions with that target |
| NsqlActions.BlankChunksSkipped | crates/nuncio-filter/src/parser.rs:456-464 | a blank chunk anywhere changes nothing |
| NsqlActions.ParsePrintedAction | crates/nuncio-filter/src/parser.rs:465-513 | any printed action is read back with the quotes of either kind at its target's ends removed, or rejected when nothing is left |
| NsqlActions.SplitPrinted | crates/nuncio-filter/src/ast.rs:239-251 | when the printed actions hold no comma outside quotes and all but the last close their quotes, splitting the clause at commas gives them back, commas inside targets included |
| NsqlActions.ReadBackSeparable | crates/nuncio-filter/src/parser.rs:585-611 | conversely, a clause that reads back unchanged falls apart in that way |
| NsqlActions.ActionsRoundTrip | crates/nuncio-filter/src/parser.rs:456-517 | any list of actions comes back from its printed clause exactly when the clause falls apart at its separators alone and no target is empty or starts or ends with a quote of either kind |
| NsqlPreprocess.RewriteKeepsIffAbsent | crates/nuncio-filter/src/parser.rs:533-541 | the two word rewrites leave exactly the texts without CONTAINS and MATCHES as whole words |
| NsqlPreprocess.ReplaceConcat | crates/nuncio-filter/src/parser.rs:533-541 | rewriting distributes over any cut that no word runs across |
| NsqlConvert.ConvertList | crates/nuncio-filter/src/parser.rs:296-308 | the IN loop collects the items in order and succeeds exactly when each is a string or an identifier |
| NsqlConvert.DepthDiscipline | crates/nuncio-filter/src/parser.rs:197-223 | conversion from any level succeeds exactly when every condition converts and the nesting of connectives, parentheses aside, stays within ten; the tree is as deep as that nesting |
| NsqlFields.FieldNames | crates/nuncio-filter/src/ast.rs:33-58 | for ASCII names: exactly the fifteen names and aliases, and `header[KEY]` (only a name between quotes can be that), in any case, name a field, and which; a key loses the quotes at its ends |
| NsqlFields.FieldsAreExact | crates/nuncio-filter/src/parser.rs:368-414 | exactly identifiers that are such a name, or `header__` and a key whose underscores become dashes, are a field |
| NsqlFields.ValuesAreExact | crates/nuncio-filter/src/parser.rs:417-453 | exactly strings, fitting numerals, flags, identifiers (true and false in any case being flags) and tuples are values, a tuple standing for the texts among its elements in order |
| NsqlFields.NumbersFit | crates/nuncio-filter/src/parser.rs:420-425 | a numeral is a value exactly when it is below 2^63 |
| NsqlFields.ConditionsAreExact | crates/nuncio-filter/src/parser.rs:197-366 | an expression that is no connective converts to a condition exactly when it is that comparison, LIKE, IN or flag |
| SqlCase.SameSelect | crates/nuncio-filter/src/parser.rs:168-180 | statements that differ in the case of words alone parse alike, to expressions that differ in the case of names alone |
| NsqlTexts.StatementRead | crates/nuncio-filter/src/parser.rs:152-194 | a condition is read alike standing alone, behind WHERE, and behind SELECT * FROM any table WHERE, the words in any case |
| NsqlTexts.ComparisonRead | crates/nuncio-filter/src/parser.rs:152-233 | a field by any of its names, quoted or not, one of the seven signs and a literal parse to that condition in each of the three forms |
| NsqlTexts.BareFieldRead | crates/nuncio-filter/src/parser.rs:321-333 | the name of a field alone parses to the condition that its flag is true |
| NsqlTexts.HeaderRead | crates/nuncio-filter/src/parser.rs:520-531 | `header[...]` in any case and spacing parses to the header of that name, underscores read as dashes |
| NsqlRule.CutAtKeyword | crates/nuncio-filter/src/parser.rs:85-88 | cutting at a keyword by byte offsets never panics and the parts rebuild the text |
| NsqlRule.OnAccountPanics | crates/nuncio-filter/src/parser.rs:82-127 | the account clause panics exactly when the trimmed rule ends with its first unquoted ON ACCOUNT |
| NsqlRule.BareAccountClausePanics | crates/nuncio-filter/src/parser.rs:107-112 | the text ON ACCOUNT alone makes the parser panic |
| NsqlRule.ParseRuleText | crates/nuncio-filter/src/parser.rs:52-79 | the whole parser, scanners and action loop included, computes the specified result |
| NsqlRule.ParsedConditionsWithinDepth | crates/nuncio-filter/src/parser.rs:61-64 | parsed conditions are at most ten deep, so the check behind them never fires |
| NsqlRule.AccountClauseRead | crates/nuncio-filter/src/parser.rs:82-127 | an account clause anywhere, its keyword in any case and its target in quotes of either kind or bare: the target is `*` when it is `?`, `*` or `%` and itself otherwise, and the rest of the rule is the text before, one space, and the text behind |
| NsqlRule.AccountClauseSetsTarget | crates/nuncio-filter/src/parser.rs:52-79 | such a rule parses as the rule without the clause does, errors included, but for that target |
| NsqlRule.AccountClauseInFront | crates/nuncio-filter/src/parser.rs:82-127 | so does a quoted clause in front of any rule without one |
| NsqlRule.OpenTargetRead | crates/nuncio-filter/src/parser.rs:89-106 | a target whose quote never closes takes all that is left |
| NsqlRule.ActionClauseRead | crates/nuncio-filter/src/parser.rs:133-150 | the conditions are the text before the first unquoted ACTION in any case, the actions those of the text behind it, none when that is blank |
| NsqlPieces.HeadersSkipPieces | crates/nuncio-filter/src/parser.rs:523-531 | the header rewrite changes nothing in printed text unless a literal ends like an open header |
| NsqlReading.PiecesRewritten | crates/nuncio-filter/src/parser.rs:533-541 | the word rewrites act on printed text token by token, inside literals too |
| NsqlReading.LexPieces | crates/nuncio-filter/src/parser.rs:32-40 | printed text lexes back to exactly its tokens |
| NsqlPrinted.NodeSpelled | crates/nuncio-filter/src/ast.rs:191-211 | the token sequence of a condition spells the printed text |
| NsqlPrinted.NodeRewritten | crates/nuncio-filter/src/parser.rs:520-544 | the word rewrites turn the pieces of printed conditions, quotes in literals or not, into those of the tree with rewritten literals |
| NsqlReparse.ParseLeaf | crates/nuncio-filter/src/ast.rs:193-198 | a printed leaf parses to its SQL expression, or fails exactly when an IN has no list or a list is empty |
| NsqlReparse.ParseNode | crates/nuncio-filter/src/ast.rs:191-211 | a printed condition parses, in front of any end, to the expression with operands attached to the left, or fails exactly when a connective is empty or a leaf does not read |
| NsqlPrecedence.ParseFlat | crates/nuncio-filter/src/parser.rs:168-180 | a condition without parentheses parses to the disjunction of its conjunctions: NOT binds more strongly than AND, AND than OR, equal connectives attach to the left |
| NsqlPrecedence.FlatMeaning | crates/nuncio-filter/src/parser.rs:202-223 | when it converts, it holds for a message exactly when all factors of one of its terms do |
| NsqlReread.NodeConverts | crates/nuncio-filter/src/parser.rs:197-350 | that expression converts exactly when every leaf reads back, and to the tree nested to the left |
| NsqlReread.ClosedLiteralsNoPattern | crates/nuncio-filter/src/parser.rs:523-531 | a printed statement whose literals do not end like an open header holds no header pattern |
| NsqlReread.ParseStatement | crates/nuncio-filter/src/parser.rs:152-194 | printed conditions of any width without quotes in literals parse exactly when they read back and their nested form is at most ten deep, and to that form |
| NsqlRoundTrip.RuleRereads | crates/nuncio-filter/src/codegen.rs:8-22 | exactly which printed rules without quotes in literals parse, whatever their actions, and what each parses to |
| NsqlRoundTrip.UndisturbedRoundTrips | crates/nuncio-filter/src/codegen.rs:27-34 | without quotes or header patterns in the conditions and without an account clause in a target, the round-trip invariant holds exactly for trees of pairs at most ten deep whose leaves read back, without rewritten words, and whose actions come back from their clause |
| NsqlRoundTrip.PlainRuleRoundTrips | crates/nuncio-filter/src/codegen.rs:27-34 | the same of rules without single quotes, with nothing asked of the printed text |
| NsqlCut.NodeCut | crates/nuncio-filter/src/parser.rs:152-194 | when the tokens of printed conditions are cut off inside a literal and anything at all follows, whatever parses carries the string read there as that very item of that very condition |
| NsqlCut.LiteralCarried | crates/nuncio-filter/src/ast.rs:131-151 | the tree itself carries its literal there |
| NsqlFront.FrontText | crates/nuncio-filter/src/ast.rs:191-211 | printed conditions start with the pieces in front of any literal whose predecessors are plain, and with that literal as printed |
| NsqlFront.FrontRewritten | crates/nuncio-filter/src/parser.rs:533-541 | the word rewrites turn the pieces in front of a literal into those in front of the same literal of the rewritten tree |
| NsqlQuoted.OffReadsOther | crates/nuncio-filter/src/parser.rs:152-194 | a text that starts like printed conditions and then spells another string at a literal's place never parses to those conditions, whatever follows |
| NsqlLost.HeaderReadsOther | crates/nuncio-filter/src/parser.rs:523-531 | a header pattern that starts within printed conditions makes what parses other conditions |
| NsqlLost.QuotedRuleIsLost | crates/nuncio-filter/src/codegen.rs:27-34 | a rule with a single quote in a literal does not come back, whatever follows the quote, whatever its actions are and wherever the scanners cut |
| NsqlLost.HeaderRuleIsLost | crates/nuncio-filter/src/codegen.rs:27-34 | neither does a rule whose printed conditions hold a header pattern |
| NsqlLost.ConditionsUndisturbed | crates/nuncio-filter/src/parser.rs:82-150 | behind conditions without single quotes the actions have no say in how the conditions are read, whatever their targets hold |
| NsqlExact.ReadFromEnough | crates/nuncio-filter/src/parser.rs:456-517 | no clause holds fewer of the letter U, and of the characters that may become one in upper case, than the printed form of the actions read from it |
| NsqlExact.AccountRuleIsLost | crates/nuncio-filter/src/parser.rs:82-127 | a rule in whose targets the scanner finds an account clause does not come back |
| NsqlExact.RuleRoundTrips | crates/nuncio-filter/src/codegen.rs:27-34 | the round-trip invariant holds exactly for trees of pairs at most ten deep whose leaves read back, whose literals hold no single quote and no rewritten word and complete no header pattern, and whose targets hold no account clause, no separator, and no quote at an end |
| NsqlWidened.WidenedRule | crates/nuncio-filter/src/ast.rs:131-151 | a rule for the subject `x' OR size > 0 --` is read back as `subject = 'x\' OR size > 0` |
| NsqlWordFree.RewrittenIsClean | crates/nuncio-filter/src/parser.rs:533-541 | no text that went through both word rewrites holds CONTAINS or MATCHES as a word |
| NsqlWordFree.LexedIsGood | crates/nuncio-filter/src/parser.rs:32-40 | nor does any literal, or any name that no number touches, lexed from such a text |
| NsqlStable.ParsedConditionsShape | crates/nuncio-filter/src/parser.rs:152-350 | conditions that parse, from any text, are trees of pairs at most ten deep without negative numbers, empty IN lists or rewritten words |
| NsqlStable.ParsedRuleShape | crates/nuncio-filter/src/parser.rs:52-79 | so are those of every parsed rule, and its targets are neither empty nor start or end with a double quote |
| NsqlStable.ParsedRuleRoundTrips | crates/nuncio-filter/src/codegen.rs:27-54 | a parsed rule comes back from its printed form exactly when no literal holds a single quote, no header pattern stands in the printed conditions, every list outside IN has two items, no account clause and no separator is found in a target and none starts or ends with a single quote |
| NsqlStable.ParsedRuleIsStable | crates/nuncio-filter/src/codegen.rs:27-54 | without single quotes a parsed rule comes back exactly when every list outside IN has two items |
| NsqlDropped.DroppedElementIsUnstable | crates/nuncio-filter/src/parser.rs:438-449 | `subject = ('a', 5)` parses to a one-item list, and that rule does not come back |
| FilterEval.OppositeOperator | crates/nuncio-filter/src/engine.rs:81-214 | NOT IN is the exact complement of IN for any value, and where field, operator and value fit each other every other pair of opposite operators is complementary too |
| FilterEval.CollectRegexes | crates/nuncio-filter/src/engine.rs:35-55 | collecting succeeds exactly when every MATCHES string compiles and appends each with its compiled form in tree order |
| FilterEval.Compile | crates/nuncio-filter/src/engine.rs:26-33 | a rule compiles exactly when all its patterns do |
| FilterEval.CollectedCacheCovers | crates/nuncio-filter/src/engine.rs:187-196 | every pattern of the tree is found in the collected cache, so the fallback is never taken |
| FilterEval.CoveringCacheAgrees | crates/nuncio-filter/src/engine.rs:68-79 | under a covering cache evaluation equals evaluation that compiles each pattern afresh |
| FilterEval.CompiledAgreesWithFresh | crates/nuncio-filter/src/engine.rs:57-66 | a compiled filter decides every message as its conditions do with fresh patterns |
| FilterSemantics.TextOperators | crates/nuncio-filter/src/engine.rs:164-214 | on a text the operators ask for equality up to ASCII case, for a position from which the lowercased text goes on with the lowercased value, for a match, for membership, or for the opposite; NOT IN alone is met by a value of another kind |
| FilterSemantics.LeafMeaning | crates/nuncio-filter/src/engine.rs:81-162 | which part of the message each field names, and what the operator asks of it |
| FilterSemantics.EvaluationMeansHolds | crates/nuncio-filter/src/engine.rs:68-79 | every condition is decided on every message by that meaning of its leaves |
| FilterSemantics.FieldDecides | crates/nuncio-filter/src/engine.rs:81-162 | messages that agree on the part a field names get the same verdict, whatever else differs |
| FilterSemantics.PatternsAreMatches | crates/nuncio-filter/src/engine.rs:35-55 | the patterns to compile are exactly the strings of MATCHES conditions, wherever they stand |
| FilterEngine.ScopeMeaning | crates/nuncio-filter/src/ast.rs:281-298 | a rule is in scope exactly when its target is for all accounts, names the account up to case, or has wildcards and its pattern, each wildcard spelled `.*`, matches |
| FilterScope.WildcardScope | crates/nuncio-filter/src/ast.rs:281-298 | a target that is empty or one wildcard applies to every account; another one with wildcards and plain characters to exactly the accounts that fall into parts, one for each character of the target: any run on one line for a wildcard, any character for a dot, the same character up to case for another; one without wildcards, or whose pattern the library refuses, to exactly the accounts equal to it in any case |
| FilterScope.GlobConcat | crates/nuncio-filter/src/ast.rs:292-296 | a target in two halves fits the accounts that fall into two halves fitting them |
| FilterScope.SuffixScope | crates/nuncio-filter/src/ast.rs:261 | `%` and a suffix apply to exactly the accounts with a last part that fits the suffix and no line break before it |
| FilterScope.SuffixIsAlmostExact | crates/nuncio-filter/src/ast.rs:281-298 | for ASCII text they apply to every account ending in the suffix, and to another exactly when it differs from such a one at dots of the suffix alone |
| FilterScope.DotIsAnyCharacter | crates/nuncio-filter/src/ast.rs:292-293 | a rule for `%@kof22.com` applies to `alice@kof22xcom` |
| FilterEngine.InsertKeepsOrder | crates/nuncio-filter/src/engine.rs:225 | sorting by priority is stable: positions stay distinct and in order of priority, then input position |
| FilterEngine.NewFilterSet | crates/nuncio-filter/src/engine.rs:222-233 | the set is built exactly when every enabled rule compiles, and holds those rules in stable priority order |
| FilterEngine.EvaluateSet | crates/nuncio-filter/src/engine.rs:263-274 | the evaluation loop returns exactly the enabled rules that are in scope and whose conditions hold of the message, with their actions, by priority, then position |
| FilterEngine.OneLeafRule | crates/nuncio-filter/src/engine.rs:263-274 | a single rule with one condition is returned exactly when it is enabled, in scope, and the part its field names meets the operator |
| FilterEngine.EvaluationIsExact | crates/nuncio-filter/src/engine.rs:257-274 | an ordered list of positions is the one behind the result exactly when it holds the enabled, in-scope, condition-true rules |
| FilterEngine.OrderIsUnique | crates/nuncio-filter/src/engine.rs:225 | stable priority order determines the list |
| FilterEngine.PreviewSet | crates/nuncio-filter/src/engine.rs:306-350 | the preview loop reports the head of such an evaluation with its actions, a match exactly when there is one, and for each active rule by priority its name, priority and verdict |
| FilterEngine.HeadIsMinimum | crates/nuncio-filter/src/engine.rs:331-336 | the reported rule precedes every other firing rule by priority, then position |
| FilterEngine.Engine.New | crates/nuncio-filter/src/engine.rs:243-248 | construction succeeds exactly when every enabled rule compiles |
| FilterEngine.Engine.ReloadRules | crates/nuncio-filter/src/engine.rs:251-255 | a failing reload leaves the active set unchanged, a succeeding one replaces it |
| FilterEngine.Engine.Evaluate | crates/nuncio-filter/src/engine.rs:263-274 | the same of the engine's current rules |
| FilterEngine.Engine.EvaluateWithTimeout | crates/nuncio-filter/src/engine.rs:277-299 | the timed form returns the same list or the empty one |
| FilterEngine.Engine.Preview | crates/nuncio-filter/src/engine.rs:306-350 | the same preview over the engine's current rules |
| FilterMeaning.NestingKeepsMeaning | crates/nuncio-filter/src/engine.rs:68-79 | nesting connectives of any width to the left keeps the verdict on every message |
| FilterMeaning.NestingKeepsPatterns | crates/nuncio-filter/src/engine.rs:35-55 | and keeps the patterns to compile |
| FilterMeaning.RereadRuleKeepsMeaning | crates/nuncio-filter/src/codegen.rs:27-34 | a printed rule with connectives of any width and no quotes or rewritten words in literals parses exactly when its nested form is shallow enough and its leaves and actions read, and then to conditions that say the same of every message |
| FilterMeaning.KeywordInLiteralChangesMeaning | crates/nuncio-filter/src/parser.rs:538-541 | a rule whose literal is a rewritten word still parses but no longer fires |
| FilterMeaning.QuoteWidensRule | crates/nuncio-filter/src/ast.rs:131-151 | a rule for one subject whose literal holds a quote, a condition and a comment parses from its printed form, and then fires on every message with a non-empty plain body |
| FilterValidator.Pass1IsExact | crates/nuncio-filter/src/validator.rs:70-111 | pass 1 accepts exactly when every condition on size or date holds a number, every one on attachments a flag, every one on a text a string or a list, and none is on a header |
| FilterValidator.Pass1Decides | crates/nuncio-filter/src/validator.rs:70-111 | after pass 1 a condition on size, date or attachments is decided by its number or flag |
| FilterValidator.SizeMustBeNumber | crates/nuncio-filter/src/validator.rs:73-79 | a size compared with a string is rejected wherever it stands |
| FilterValidator.PatternCheckIsExact | crates/nuncio-filter/src/validator.rs:188-217 | the pattern check passes exactly when each pattern the engine will collect compiles and has no nested quantifier |
| FilterValidator.NestedQuantifierMeaning | crates/nuncio-filter/src/validator.rs:188-205 | a pattern is refused for a group that ends in `+` or `*` and is itself followed by one |
| FilterValidator.Pass4IsExact | crates/nuncio-filter/src/validator.rs:179-217 | pass 4 accepts exactly trees at most ten deep in which every pattern compiles and has no such group |
| FilterValidator.Pass4Compiles | crates/nuncio-filter/src/validator.rs:179-186 | conditions that pass 4 accepts always compile |
| FilterValidator.Pass4OnParsed | crates/nuncio-filter/src/validator.rs:179-186 | on parsed conditions the depth check of pass 4 never fires |
| FilterValidator.Pass5 | crates/nuncio-filter/src/validator.rs:220-252 | the bounds loop rejects exactly when the last lower bound is not below the last upper bound |
| FilterValidator.ContradictionSound | crates/nuncio-filter/src/validator.rs:243-249 | a rejected conjunction holds for no message when the last bounds cross or one is strict, whatever the other conjuncts; otherwise only for messages of exactly that size |
| FilterValidator.AdmitsWithin | crates/nuncio-filter/src/engine.rs:118-136 | a size meets any conditions on the size exactly when all of them are comparisons, it lies between the highest floor and the lowest ceiling, and none rules it out |
| FilterValidator.SizesSatisfiable | crates/nuncio-filter/src/validator.rs:220-252 | a conjunction of any conditions on the size, by any operator, can hold exactly when all are comparisons and the least size that floors and exclusions leave is not above the lowest ceiling |
| FilterValidator.RejectedThoughPossible | crates/nuncio-filter/src/validator.rs:220-252 | for any number of conditions on the size in any order: rejected although it can hold exactly when the last lower and upper bounds are the same non-negative number, neither strict, and every other condition admits it |
| FilterValidator.AcceptedThoughImpossible | crates/nuncio-filter/src/validator.rs:220-252 | accepted although it cannot hold exactly when a condition is no comparison or the least size left lies above the lowest ceiling, and the last bounds, if both kinds occur, do not cross |
| FilterValidator.OverwrittenBound | crates/nuncio-filter/src/validator.rs:226-241 | `size > 10 AND size > 1 AND size < 5` is accepted and holds for no message |
| FilterValidator.FixedSizeOverlooked | crates/nuncio-filter/src/validator.rs:226-241 | `size = 5 AND size > 10` is accepted and holds for no message |
| FilterValidator.PairOfBounds | crates/nuncio-filter/src/validator.rs:220-252 | for one lower and one upper bound in either order: when it can hold, when it is rejected, and exactly when it is rejected although it can hold |
| VCard.ToVCard | crates/nuncio-contacts/src/models.rs:74-104 | the printer writes the card's lines, each ended by CRLF |
| VCard.AppendPoints | crates/nuncio-contacts/src/models.rs:88-101 | the loops over emails and phones append one line for each, in order |
| VCard.UnfoldLines | crates/nuncio-contacts/src/parser.rs:146-159 | the unfolding loop computes the unfolded text |
| VCard.ParseVCard | crates/nuncio-contacts/src/parser.rs:25-131 | the parsing loop computes the contact or the error |
| VCardReading.PropertyRead | crates/nuncio-contacts/src/parser.rs:52-99 | an FN, ORG, TITLE, EMAIL or TEL line, its name in any case and with any parameters, sets that field or adds one entry; the label is the lowercased text behind TYPE= of the first parameter that starts so in any case, and `other` exactly when none does |
| VCardReading.NameRead | crates/nuncio-contacts/src/parser.rs:69-79 | an N line sets family and given name from its first two parts, a blank part leaving the field as it was |
| VCardReading.OtherLineRead | crates/nuncio-contacts/src/parser.rs:52-102 | any other line changes nothing |
| VCardReading.EntryRead | crates/nuncio-contacts/src/parser.rs:82-99 | in a whole card each EMAIL or TEL line gives the entry of its rank, primary exactly when first, and there are no others |
| VCardReading.DisplayNameRead | crates/nuncio-contacts/src/parser.rs:104-111 | the display name is the last FN value, and without FN the value of the first EMAIL |
| VCardReading.CardOutcome | crates/nuncio-contacts/src/parser.rs:30-111 | parsing fails exactly for more than 1048576 bytes, without the marker in any case, or without FN and EMAIL |
| VCardRoundTrip.FoldKeepsText | crates/nuncio-contacts/src/parser.rs:146-159 | a fold inserted inside a line, CRLF or a bare LF and any run of spaces and tabs, not before whitespace, leaves the unfolded text unchanged |
| VCardRoundTrip.FoldsKeepText | crates/nuncio-contacts/src/parser.rs:146-159 | so does any number of folds |
| VCardRoundTrip.FoldInsensitive | crates/nuncio-contacts/src/parser.rs:30-41 | a folded card parses to the same contact exactly when it still passes the two checks on the raw text |
| VCardRoundTrip.FoldedEnvelopeIsRejected | crates/nuncio-contacts/src/parser.rs:35-39 | a fold inside the first line hides the marker |
| VCardRoundTrip.RenderedLinesRead | crates/nuncio-contacts/src/parser.rs:41-51 | the parser sees exactly the lines that were printed |
| VCardRoundTrip.ParsePointLine | crates/nuncio-contacts/src/parser.rs:82-99 | a printed email or phone line adds one entry with its value and lowercased label, primary exactly when first |
| VCardRoundTrip.ReadableCardParses | crates/nuncio-contacts/src/parser.rs:25-131 | what a printed card parses to, for any labels without separators |
| VCardRoundTrip.ParsedIsDisciplined | crates/nuncio-contacts/src/parser.rs:51-131 | whatever parses has trimmed one-line values, non-blank name parts, labels without separators and exactly the first entries primary |
| VCardRoundTrip.LowercaseLabelIsStable | crates/nuncio-contacts/src/models.rs:89-93 | lowercase ASCII labels survive uppercasing and lowercasing |
| VCardRoundTrip.VCardRoundTrips | crates/nuncio-contacts/src/parser.rs:217-246 | printing and parsing restores name, N, ORG, TITLE, emails and phones exactly when the contact is printable and the text fits the limit |
| VCardRoundTrip.GivenNameAloneIsLost | crates/nuncio-contacts/src/models.rs:74-87 | a contact with a given name and no family name does not come back |
| VCardRoundTrip.SecondPrimaryIsLost | crates/nuncio-contacts/src/parser.rs:82-99 | nor does one whose second email is marked primary |
| WormAudit.FeedHmac | crates/nuncio-core/src/worm_audit.rs:52-72 | six updates feed eight big-endian bytes of the sequence, eight of the timestamp modulo 2^64, then actor, action, data hash and previous hash; the result spells the MAC in lowercase hex, the higher digit of each byte first |
| WormAudit.LayoutOnce | crates/nuncio-core/src/worm_audit.rs:64-69 | that layout fixes the fed bytes |
| WormAudit.HexSpelled | crates/nuncio-core/src/worm_audit.rs:71 | `hex::encode` puts the two digits of byte k at 2k and 2k+1 |
| WormAudit.VerifyWormChain | crates/nuncio-core/src/worm_audit.rs:137-157 | accepts exactly the chains in which the first record names GENESIS, every other the HMAC before it, and each carries the hex MAC of its own bytes; a rejection names the first record that does not, what it should have and what it has |
| WormAudit.GrownLogVerifies | crates/nuncio-core/src/worm_audit.rs:75-110 | every log grown by signing onto the last HMAC is accepted |
| WormAudit.MessageFixesContent | crates/nuncio-core/src/worm_audit.rs:64-69 | two records are fed to the MAC as the same bytes exactly when they agree on sequence, time, previous hash and the joined payload |
| WormAudit.LastHmacFixesHistory | crates/nuncio-core/src/worm_audit.rs:137-157 | two verified chains under one key that end in the same HMAC have the same length and agree record by record, or contain two different messages with the same MAC |
| WormAudit.LastHmacFixesGrownLog | crates/nuncio-core/src/worm_audit.rs:75-110 | for grown logs the last HMAC also fixes each data hash and each actor with its action |
| Recurrence.PullWindow | crates/nuncio-cal/src/rrule.rs:55-69 | the lazy pipeline ends on every increasing series, finite or not, and yields the first 500 occurrences of the window in order |
| Recurrence.ExpandOccurrences | crates/nuncio-cal/src/rrule.rs:17-76 | when expansion succeeds, and that it returns the first 500 occurrences of the window, ends included, each with the master's id, `_occ_` and its index, its own start, the master's duration and everything else of the master; the master alone for an event without a rule |
| Recurrence.PipelineRefinesFilter | crates/nuncio-cal/src/rrule.rs:50-59 | the picked occurrences are the first 500 of a plain scan of the series, however far it goes |
| Recurrence.InstancesDistinct | crates/nuncio-cal/src/rrule.rs:62-69 | instances have pairwise distinct ids, start at their occurrence and keep the master's duration and other fields |
| Recurrence.InstanceIdNames | crates/nuncio-cal/src/rrule.rs:64-65 | an instance id names its master and its index, whatever ids masters have |

## Left out

- SQL outside the modelled subset: arithmetic, functions, ILIKE, BETWEEN, the `~~` family of operators, several statements, and the SQL library's own recursion limit. In the model such text is a syntax error. What is proved of quoted literals and header patterns does not rest on that: it holds for anything that follows the literal, parsed or not.
- NsqlConvert.ExtractField: only identifiers name fields; the source also accepts any expression whose printed form starts with `header__`, and dotted names.
- NsqlExact.RuleRoundTrips: does not speak of trees with header fields, which the validator rejects in every rule (`FilterValidator.Pass1IsExact`), or of single quotes and open headers in a list outside IN and NOT IN: the parser drops the elements of such a list that are no strings, so a disturbed element can move those behind it, and whether a rule could come back that way is not decided. ON ACCOUNT is never printed, so conditions and actions are compared, as the source's own check does.
- NsqlStable.ParsedRuleRoundTrips: has the same two limits; ParsedRuleShape has none.
- NsqlLost.QuotedRuleIsLost: does not speak of quotes in a list outside IN and NOT IN, nor of header fields.
- NsqlLost.HeaderRuleIsLost: does not speak of open headers in a list outside IN and NOT IN, nor of header fields.
- NsqlRoundTrip.RuleRereads: says what the printed text is read as when no literal holds a single quote, no header pattern and no account clause is found, and no condition is on a header field; otherwise the text is whatever the literal or target holds.
- NsqlReread.ParseStatement: has the same limits.
- FilterMeaning.RereadRuleKeepsMeaning: has the same limits, and none of the rewritten words in literals.
- FilterValidator.RejectedThoughPossible: speaks of conjunctions of conditions on the size; with other conjuncts beside them `ContradictionSound` gives the sizes left.
- FilterValidator.AcceptedThoughImpossible: speaks of conjunctions of conditions on the size; pass 5 looks at nothing else.
- NsqlPieces.HeadersSkipPieces: is one direction; a literal that ends like an open header may or may not be rewritten, depending on the literals behind it. The round-trip theorems ask whether the text is rewritten, not how its literals end.
- NsqlRule.ParseRuleText: SQL outside the modelled subset is a syntax error in the model.
- FilterScope.WildcardScope: does not speak of targets with wildcards and pattern operators other than the dot, such as `+` in a tagged address, which the library reads as operators.
- WormAudit.LastHmacFixesHistory: a MAC into 32 bytes cannot be injective, so the conclusion names the colliding messages instead of assuming there are none.
- Recurrence.PullWindow: times are unbounded integers; overflow of the 64-bit sum of start and duration is not modelled.
- FilterEval.SizeOf: the byte length is a natural number; the cast to a signed 64-bit number cannot wrap for texts that fit in memory.
- FilterEngine.Engine: the atomic swap of the cache is one assignment; readers running at the same time are not modelled. Elapsed microseconds are not part of the preview.
- FilterRule carries no creation time, update time or source text; a parsed rule is its target, conditions and actions, without the name and priority passed through and the id derived by hashing.
- Validator passes 2, 3 and 6, and webhook signing: checks of single values or policy.
- Sockets, TLS, IDLE, credentials, MIME decoding and envelope texts of IMAP messages: a message is known by its UID.
- Contacts' notes, avatars, favourites, counters and timestamps: the vCard code neither prints nor reads them.
- Storage, search, the other calendar and contact code, and every shell around these cores.
