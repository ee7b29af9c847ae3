# Verified model of the agent governance toolkit

This project models the stateful, lexical and arithmetic parts of the TypeScript SDK
(`agent-governance-typescript/src`) and one Python screening script (`scripts/contributor_check.py`), and proves what
they promise. Run `dafny verify dfyconfig.toml` to check everything.

| module | what it models |
| --- | --- |
| `SqlLexing`, `SqlTokens`, `SqlWords`, `SqlMisreads`, `Trimming` | the comment stripper, the statement splitter and the verb finder for SQL, against one reference lexer, which is described in literal characters |
| `Expressions` | the quote-aware splitter and the evaluator of policy conditions |
| `Conflicts`, `RateLimits`, `PolicyEngine`, `PolicyAnswers`, `PolicyRuns`, `DenyRuns`, `Backends` | conflict resolution, rate limits, policy evaluation and its answers case by case, whole runs of the engine, runs with and without one more denying rule, external backends |
| `CircuitBreakers`, `AgentGraph`, `DepthPaths`, `Cascade`, `Containment`, `LinkHistory`, `DiamondRun`, `Reachability` | the lazily timed circuit breaker, the agent dependency graph, the cascade-containment manager, what its calls change and report, and its runs |
| `AuditChain` | the hash-chained audit log with eviction |
| `Identity` | capability wildcards, delegation chains, recursive revocation |
| `Templates`, `CredentialVault` | the placeholder language, the vault and the injector |
| `EditDistance`, `Luhn`, `BurstWindow` | typosquatting distance, the NPI check digit, burst windows |
| `Collections`, `Counting`, `Options` | what the others share |

Code that updates state is a class or a method with loops. A class method states its new state through a function on
values (`Run`, `Evaluate`, `Inject`, `Levenshtein`'s `Distance`, ...), and the lemmas are about these functions. Classes
whose calls build on each other (`AuditLogger`, `CascadeContainmentManager`) carry a ghost history, and their invariant
says that the fields are what this history leads to, so that every lemma about runs is a fact about the object.

Clocks, random identifiers and the hash function are parameters. Texts are sequences of characters and stand for UTF-16
code units. Identities, policies and nodes that are handed out are not changed by those who receive them.

## What was found

Each of these is stated and proved below; the code is modelled as it is.

* The comment stripper leaves the last character of a block comment that is never closed. Stripping and splitting
  agree with the reference lexer if and only if that character is invisible or a semicolon. Otherwise the statements
  differ, and there are at least as many of them; several statements are never classified as one known verb
  (`SqlLexing.PipelineIsReference`, `SqlLexing.ClassifyVerb`).
* The flag with which the verb finder skips a leading WITH has no effect, because WITH is not among the verbs it looks
  for (`SqlLexing.DetectCteInnerVerb`).
* The verb finder cuts identifiers at their digits, reads words with only literals between them as one word, and drops
  words that run, at once or behind literals, into a parenthesis or the end of a literal that is never closed. It reads
  exactly a statement's words, that is its identifiers, if and only if none of this happens at parenthesis depth 0
  (`SqlWords.WordsExactlyWhen`). So `WITH x AS (SELECT 1) UPDATE"t"SET a=1` and
  `WITH select1 AS (SELECT 1) DELETE FROM t` are both classified as SELECT (`SqlMisreads.UpdateIsReadAsSelect`,
  `SqlMisreads.DeleteIsReadAsSelect`).
* The verb of a statement is that of its own words, the first one or the first DML verb behind WITH, if and only if the
  first word is a whole identifier, or no known verb when cut short, and behind WITH no run of words before the first verb
  is read with another verb, or without its own; otherwise only a verb further on can make up for it
  (`SqlWords.VerbExactlyWhen`).
* The dependency depth shares one visited set between branches. It measures every agent along the first path to it, in
  the order of the dependency lists: it is the greatest number of agents on the first path to an agent that has
  dependencies, or 0 (`DepthPaths.DepthIsLongestFirstPath`). It is the length of the longest walk if and only if such a
  path is as long as the longest walk permits (`DepthPaths.DepthExactlyWhen`), for instance where all walks to any one
  agent with dependencies are equally long. A run of the manager leads to a graph where it is not
  (`AgentGraph.DepthCanFallShort`, `DiamondRun.DiamondIsReached`). It never falls short of the distance to any agent
  below, and so the check made with it bounds distances (`Cascade.AcceptedIsShallow`).
* Health propagation is written as a recursion but reaches one hop only (`Cascade.CascadeContainmentManager.PropagateFrom`).
* A breaker's state is what its calls suggest, with two exceptions: a threshold below one with no failure since the last
  success, and a breaker opened at clock reading 0, which never turns half open (`CircuitBreakers.BreakerIsHistory`).
* Links of two agents can share a breaker if and only if one agent's id is the other's followed by an arrow and whatever
  comes next (`Cascade.LinkKeysCanCollide`). Where no caller extends another caller's id like that, every link has its
  own breaker, and answers to its own calls only (`Cascade.OneBreakerPerLink`, `LinkHistory.LinkIsRefusedWhen`); where
  one does, its failures can cut off a link none of whose own calls failed (`LinkHistory.OthersRefuseExactlyWhen`).
* The audit chain does not notice entries dropped from its end (`AuditChain.PrefixVerifies`).
* Revoking the head of a delegation chain revokes exactly the registered links up to the first one that was never
  registered (`Identity.GapStopsRevocation`). A revoked identity can still delegate: the child starts active
  (`Identity.AgentIdentity.Delegate`).
* Appending a denying rule never turns a refused evaluation into an allowed one, under all four strategies. Over several
  evaluations it can, because requests it turns away no longer use up another rule's limit, or are charged to another
  limit of the same name. It can exactly when some request disturbs another one: the latter is still permitted with the
  rule, and its window is, with the rule, not charged by the former where it was, or charged where it was not, charged
  for another period, or filled less, and less than its own count (`DenyRuns.LoosensExactlyWhen`). A run without such a
  request is safe, from any windows (`DenyRuns.UndisturbedIsSafe`).
* A fixed window admits at most max(1, count) requests, and an interval as long as the period at most
  2 max(1, count) - 1, one less than two full windows; every limit has a run that reaches the bound, so that a count
  above 1 can be exceeded within one period (`RateLimits.IntervalBoundIsTight`, `RateLimits.OneAllowanceExactlyWhen`).
* A winning rule is held to the limit of the first rule of its name in its policy, which need not be its own
  (`PolicyEngine.OwnLimitExactlyWhen`).
* Fields whose keys are rendered alike collapse into one, with the last value; rendering keeps a payload's shape if and
  only if there are none (`CredentialVault.RenderingExactlyWhen`).
* The fork-burst message says "within 72 hours", but the code counts 72 hours to either side: five forks can be
  reported although no 72 hours hold more than three (`BurstWindow.ReportCanOverstate`). The number is true exactly when
  around some fork there are so many and all of these lie within 72 hours of each other
  (`BurstWindow.TruthfulExactlyWhen`). The signal itself need not be earned: three curated forks 72 hours apart raise it
  (`BurstWindow.SignalCanBeUnearned`). It is earned exactly when some fork has enough of them from it on within 72 hours
  (`BurstWindow.BurstExactlyWhen`). The model follows the code.

## Model

| member | source | states |
|---|---|---|
| SqlLexing.StripSqlComments | agent-governance-typescript/src/protocol-facets.ts:339-382 | the stripping loop computes `Strip`, for every text, closed or not |
| SqlLexing.SkipLineComment | agent-governance-typescript/src/protocol-facets.ts:365-370 | the inner loop stops at the first line end, `\n` or `\r` (`SqlTokens.CharacterClasses`), and takes nothing of it |
| SqlLexing.SkipBlockComment | agent-governance-typescript/src/protocol-facets.ts:371-377 | the inner loop stops behind the first closing mark, or before the last character when there is none |
| SqlLexing.SplitSqlStatements | agent-governance-typescript/src/protocol-facets.ts:188-222 | the splitting loop computes `Split`, doubled quotes included |
| SqlLexing.StripIsIdempotent | agent-governance-typescript/src/protocol-facets.ts:328-382 | stripping comments twice is stripping them once, on every text |
| SqlLexing.LexIsLossless | agent-governance-typescript/src/protocol-facets.ts:328-382 | the reference lexer's tokens spell the text, so that it is an independent reading of it |
| SqlLexing.BlockAgrees | agent-governance-typescript/src/protocol-facets.ts:371-376 | stripper and reference lexer end a block comment at the same place unless it is never closed |
| SqlLexing.PipelineIsReference | agent-governance-typescript/src/protocol-facets.ts:143-155 | strip, trim and split give the reference lexer's statements if and only if the residue of an unclosed comment is harmless, and never fewer statements |
| SqlLexing.ResidueEffect | agent-governance-typescript/src/protocol-facets.ts:371-376 | a visible residue always changes the statements, a blank or a semicolon never does |
| SqlLexing.StatementsAreAtomic | agent-governance-typescript/src/protocol-facets.ts:184-222 | every statement found is trimmed and not blank, and splitting it again gives itself alone |
| SqlTokens.CharacterClasses | agent-governance-typescript/src/protocol-facets.ts:341-370 | which characters are quotes, line ends, blanks and letters, one by one |
| SqlTokens.LineCommentIsToken | agent-governance-typescript/src/protocol-facets.ts:365-370 | the reference lexer reads `--`, any text without line ends, and a line end or nothing behind it, as one comment and the rest |
| SqlTokens.BlockCommentIsToken | agent-governance-typescript/src/protocol-facets.ts:371-377 | likewise `/*`, any text without `*/`, and `*/` |
| SqlTokens.OpenBlockIsToken | agent-governance-typescript/src/protocol-facets.ts:371-377 | an unclosed block comment reaches up to the end |
| SqlTokens.QuotedIsToken | agent-governance-typescript/src/protocol-facets.ts:345-364 | a text between any of the three quotes, its quotes doubled, is one literal whatever it holds |
| SqlTokens.CharIsToken | agent-governance-typescript/src/protocol-facets.ts:339-382 | every other character, but for a semicolon, is a token by itself |
| SqlTokens.LineCommentIsStripped | agent-governance-typescript/src/protocol-facets.ts:365-370 | the stripper turns a line comment into one blank and goes on at the line end |
| SqlTokens.BlockCommentIsStripped | agent-governance-typescript/src/protocol-facets.ts:371-377 | and a closed block comment; of an unclosed one the last character stays |
| SqlTokens.OpenBlockLeaves | agent-governance-typescript/src/protocol-facets.ts:371-377 | what an unclosed block comment leaves, and when that is harmless: when it is nothing, a blank or a semicolon |
| SqlTokens.QuotedIsKept | agent-governance-typescript/src/protocol-facets.ts:345-364 | and keeps a quoted text as it stands |
| SqlTokens.SemicolonEnds | agent-governance-typescript/src/protocol-facets.ts:188-222 | a semicolon outside literals and comments ends the statement before it |
| SqlTokens.StatementIsTrimmed | agent-governance-typescript/src/protocol-facets.ts:143-155 | a statement is what is visible of its text, and blanks alone are none |
| SqlLexing.DetectCteInnerVerb | agent-governance-typescript/src/protocol-facets.ts:230-280 | the scanning loop finds the first DML verb among the words scanned at parenthesis depth 0, else SELECT, and the flag has no effect; which words these are is stated by `SqlWords.WordsExactlyWhen` |
| SqlWords.FinderReadsTokens | agent-governance-typescript/src/protocol-facets.ts:236-251 | on every stripped text the words scanned are those of a scan over the reference lexer's tokens, in which a closed literal neither ends a word nor adds to it |
| SqlWords.StatementIsCommentFree | agent-governance-typescript/src/protocol-facets.ts:143-155 | no statement that reaches the finder holds a comment, by the reference lexer, or a residue of one inside |
| SqlWords.WordsExactlyWhen | agent-governance-typescript/src/protocol-facets.ts:230-280 | for every statement of every text: the words scanned are the statement's identifiers, by tokens, if and only if at depth 0 no identifier holds a digit, none is joined to another one by literals alone, and none ends in a parenthesis or an unclosed literal; without digits never more words are scanned than there are |
| SqlWords.WordsByRuns | agent-governance-typescript/src/protocol-facets.ts:230-280 | for every statement: the words scanned are what is read of its runs, pieces joined, cut at digits, and perhaps without the last; its words are the identifiers of all runs |
| SqlWords.VerbByRuns | agent-governance-typescript/src/protocol-facets.ts:230-280 | the verb read and the verb named are the same unless some run before the first verb is read with another verb or without its own, and then both are determined by that run and what follows |
| SqlWords.VerbExactlyWhen | agent-governance-typescript/src/protocol-facets.ts:157-170 | for every statement of every text: the verb is that of its own words if and only if, where the first word is cut short, what is left is no known verb, and otherwise behind WITH there is no such run, or both verbs happen to agree |
| SqlWords.VerbIsRight | agent-governance-typescript/src/protocol-facets.ts:157-170 | in particular where the first word is a whole identifier and there is no such run |
| SqlMisreads.GluedVerbIsMissed | agent-governance-typescript/src/protocol-facets.ts:230-280 | a family of statements, for any verb, quoted name and words, whose verb is glued to the name and missed |
| SqlMisreads.UpdateIsReadAsSelect | agent-governance-typescript/src/protocol-facets.ts:230-280 | an instance: one statement whose verb is UPDATE and which is classified as SELECT |
| SqlMisreads.NameIsReadAsVerb | agent-governance-typescript/src/protocol-facets.ts:256-276 | a family of statements, for any verb: a table expression whose name holds a digit and, cut there, a verb lends it to the statement |
| SqlMisreads.DeleteIsReadAsSelect | agent-governance-typescript/src/protocol-facets.ts:256-276 | an instance: one statement whose verb is DELETE and which is classified as SELECT |
| SqlLexing.ClassifyVerb | agent-governance-typescript/src/protocol-facets.ts:143-182 | fails closed: more than one statement by the reference lexer is UNKNOWN; otherwise the verb is that of the one statement read, an unclosed comment's last character being read as text; empty exactly when nothing but comments and blanks is there. Which texts these are, in literal characters, is stated by the rows of `SqlTokens` |
| SqlTokens.LeadingVerb | agent-governance-typescript/src/protocol-facets.ts:94-117 | a statement goes by its leading letters: one of the known verbs, each written out; behind WITH the first DML verb read; anything else is UNKNOWN |
| SqlTokens.FirstVerbCounts | agent-governance-typescript/src/protocol-facets.ts:253-280 | of the words read the first INSERT, UPDATE, DELETE, MERGE or SELECT counts, and without any it is SELECT |
| SqlTokens.ScannedCharacters | agent-governance-typescript/src/protocol-facets.ts:230-280 | what the verb finder does with each character outside literals: parentheses, letters, everything else |
| SqlTokens.NamedCharacters | agent-governance-typescript/src/protocol-facets.ts:230-280 | and by the identifiers meant, in letters, digits and underscores |
| SqlTokens.ClassifiedByStatements | agent-governance-typescript/src/protocol-facets.ts:143-182 | on every text: several statements by the reference lexer are UNKNOWN, and one goes by its own verb where the residue is harmless |
| SqlTokens.SecondBehindLine | agent-governance-typescript/src/protocol-facets.ts:143-182 | for any visible first statement, comment text, line end and second statement: `v -- b`, the line end, `; c` is UNKNOWN |
| SqlTokens.SecondBehindBlock | agent-governance-typescript/src/protocol-facets.ts:143-182 | the same behind a block comment |
| SqlTokens.QuotedSemicolons | agent-governance-typescript/src/protocol-facets.ts:143-182 | a semicolon inside a literal does not make a second statement |
| SqlTokens.PlainStatement | agent-governance-typescript/src/protocol-facets.ts:143-182 | a statement without comments, literals and semicolons, blanks around it, has its own verb |
| Expressions.SplitText | agent-governance-typescript/src/policy.ts:179-202 | the loop with two quote flags splits exactly at the separators outside quotes |
| Expressions.SplitRejoins | agent-governance-typescript/src/policy.ts:169-202 | the parts joined with the separator are the text |
| Expressions.PartsAreWhole | agent-governance-typescript/src/policy.ts:169-202 | no part holds a separator outside quotes |
| Expressions.PartsKeepWhole | agent-governance-typescript/src/policy.ts:212-223 | splitting on one connective brings in no other one |
| Expressions.PartsAreShorter | agent-governance-typescript/src/policy.ts:214-223 | every part of a real split is shorter than the text, so that the recursive evaluation ends |
| Expressions.EvaluateIsFlat | agent-governance-typescript/src/policy.ts:209-223 | on every text the recursion has the meaning of one or of ands of atoms |
| Expressions.SplitJoin | agent-governance-typescript/src/policy.ts:169-202 | splitting texts that were joined with a separator gives the texts back |
| Expressions.PrintThenEvaluate | agent-governance-typescript/src/policy.ts:204-223 | printing any or of ands of atoms and evaluating the text gives the meaning of the tree |
| Expressions.TwoAtoms | agent-governance-typescript/src/policy.ts:204-223 | `a and b` and `a or b`, written out, mean both and either |
| Expressions.QuotedLiteralIsAtom | agent-governance-typescript/src/policy.ts:170-177 | a comparison with a literal in either kind of quotes is one atom whatever the literal holds, connectives and the other quote included |
| Conflicts.SortIsStable | agent-governance-typescript/src/policy.ts:98-145 | the sort the strategies use permutes the candidates, orders them and leaves ties as they came |
| Conflicts.ConflictResolver.Resolve | agent-governance-typescript/src/policy.ts:52-90 | refuses an empty list; otherwise the strategy's winner, the number of candidates, and a conflict exactly when an allow meets a deny |
| Conflicts.WinnerIsFirstMaximal | agent-governance-typescript/src/policy.ts:92-149 | for all four strategies the winner is the first of the strongest eligible candidates, and no other place in the list fits that description |
| Conflicts.WinnerByStrategy | agent-governance-typescript/src/policy.ts:92-149 | strategy by strategy, in priorities and scopes: the first denial, or permission, of highest priority if there is one; the first of highest priority; or the first of highest priority among those of the most specific scope, agent before organization before tenant before global |
| Conflicts.OneMoreDeny | agent-governance-typescript/src/policy.ts:92-149 | one more denying candidate, at any place and under any strategy, wins itself or changes nothing |
| Conflicts.DenyOverridesAll | agent-governance-typescript/src/policy.ts:92-109 | under deny-overrides a denying candidate is never outvoted |
| RateLimits.RunIsRegular | agent-governance-typescript/src/policy.ts:523-545 | in every run admitted requests lie in their windows, a window's first request opens it, and it opens only after the one before ran out |
| RateLimits.EachWindowIsBounded | agent-governance-typescript/src/policy.ts:734-755 | no fixed window admits more than max(1, count) requests |
| RateLimits.EachIntervalIsBounded | agent-governance-typescript/src/policy.ts:734-755 | no interval as long as the period, wherever it starts, admits more than 2 max(1, count) - 1 |
| RateLimits.IntervalBoundIsTight | agent-governance-typescript/src/policy.ts:734-755 | for every limit with a count, a run that reaches that bound |
| RateLimits.OneAllowanceExactlyWhen | agent-governance-typescript/src/policy.ts:734-755 | no interval as long as the period ever admits more than one window's allowance, in any run, if and only if the count is at most 1 |
| PolicyEngine.PolicyEngine.constructor | agent-governance-typescript/src/policy.ts:383-390 | starts without policies and windows, with priority-first-match unless told otherwise |
| PolicyEngine.PolicyEngine.LoadPolicy | agent-governance-typescript/src/policy.ts:394-407 | refuses exactly the unknown scopes; otherwise the policy of that name is replaced in place or appended |
| PolicyEngine.PolicyEngine.RemovePolicy | agent-governance-typescript/src/policy.ts:438-440 | removes the policy of that name and tells whether there was one |
| PolicyEngine.PolicyEngine.ClearPolicies | agent-governance-typescript/src/policy.ts:443-446 | forgets policies and windows |
| PolicyEngine.PolicyEngine.CollectCandidates | agent-governance-typescript/src/policy.ts:481-521 | the two loops collect the firing rules of the applicable policies, in order |
| PolicyEngine.PolicyEngine.IsRateLimited | agent-governance-typescript/src/policy.ts:734-744 | an expired window is forgotten; otherwise limited exactly when the count is used up |
| PolicyEngine.PolicyEngine.IncrementRateLimit | agent-governance-typescript/src/policy.ts:746-755 | opens a window when there is none and counts one request |
| PolicyEngine.PolicyEngine.EvaluatePolicy | agent-governance-typescript/src/policy.ts:464-576 | decision and windows are those of the pure evaluation, for every request; what these are is stated case by case by `PolicyAnswers.WithoutRule` and `PolicyAnswers.WithRuleWinning` |
| PolicyAnswers.WithoutRule | agent-governance-typescript/src/policy.ts:563-576 | when no rule fires: the default action of the first applicable policy, a denial when it has none or none applies; allowed if and only if that action is Allow; no window changes |
| PolicyAnswers.EmptyDenies | agent-governance-typescript/src/policy.ts:563-576 | an engine without policies denies every request |
| PolicyAnswers.WithRuleWinning | agent-governance-typescript/src/policy.ts:523-560 | when some rule fires: the strategy's winner, one of those that fire, decides; denied as rate limited if and only if its limit's window is open and full; otherwise allowed if and only if its action is Allow, Warn or Log, and counted |
| PolicyAnswers.AppliesWhen | agent-governance-typescript/src/policy.ts:810-819 | when a policy applies to an agent |
| PolicyAnswers.FiresWhen | agent-governance-typescript/src/policy.ts:506-509 | when a rule fires; a disabled one never does |
| PolicyAnswers.ActionWhen | agent-governance-typescript/src/policy.ts:508-511 | which action a rule puts forward |
| PolicyAnswers.ScopeWhen | agent-governance-typescript/src/policy.ts:487-504 | the scopes by their names; an unknown one ranks as an agent's |
| PolicyEngine.LoadedMeaning | agent-governance-typescript/src/policy.ts:399-407 | loading keeps names distinct, adds the policy and drops only its namesake |
| PolicyEngine.RemovedMeaning | agent-governance-typescript/src/policy.ts:438-440 | removing drops exactly the policy of that name |
| PolicyEngine.DenyRuleNeverLoosens | agent-governance-typescript/src/policy.ts:481-576 | appending a denying rule to a loaded policy never turns a refused evaluation into an allowed one, under every strategy and with any windows |
| PolicyEngine.FiringDenyRefuses | agent-governance-typescript/src/policy.ts:481-576 | under deny-overrides a denying rule that fires refuses the request |
| PolicyEngine.RunsCanLoosen | agent-governance-typescript/src/policy.ts:523-545 | over two evaluations the same addition can let a request pass that was rate limited: an instance of what `DenyRuns.LoosensExactlyWhen` says in general |
| PolicyEngine.OwnLimitExactlyWhen | agent-governance-typescript/src/policy.ts:728-735 | a winning rule is charged by its own limit if and only if it goes by a name and the first rule of that name in its policy has that limit; a rule without a limit is not charged if and only if no such first rule has one |
| PolicyEngine.WinnerKeepsLimit | agent-governance-typescript/src/policy.ts:523-545 | under every strategy the winner is a firing rule of an applicable policy, and charged by its own limit when it is the first of its name |
| PolicyRuns.LimitsAreIndependent | agent-governance-typescript/src/policy.ts:728-755 | in a run of loads, removals, clearings and evaluations the requests admitted under a rule name since the last clearing are those its limit alone would admit |
| PolicyRuns.AdmissionsAreBounded | agent-governance-typescript/src/policy.ts:523-545 | the two bounds for whole runs of the engine, counted from the last clearing, with one limit per rule name and a clock that never goes back |
| DenyRuns.UndisturbedIsSafe | agent-governance-typescript/src/policy.ts:523-545 | with one denying rule appended, and whatever windows are open at the start, a request that passes after any run in which no request disturbs it passes without the rule too; the condition reads policies and requests only |
| DenyRuns.ChargedAlikeWindows | agent-governance-typescript/src/policy.ts:734-755 | requests charged to the same limit under both policy lists leave the very same windows |
| DenyRuns.ChargedAlikeIsSafe | agent-governance-typescript/src/policy.ts:523-545 | after requests charged alike nothing passes with the denying rule that is refused without it |
| DenyRuns.DisturbanceLoosens | agent-governance-typescript/src/policy.ts:728-755 | for any counts and periods: when one request disturbs another, some run under a clock that never goes back lets the latter pass with the rule and not without it |
| DenyRuns.LoosensExactlyWhen | agent-governance-typescript/src/policy.ts:523-545 | appending a denying rule loosens some run from the start if and only if some request disturbs another one |
| DenyRuns.PermittedIsUntouched | agent-governance-typescript/src/policy.ts:481-545 | a request that is still permitted with the denying rule was permitted without it and is charged to the same limit |
| Backends.BackendsOnlyTighten | agent-governance-typescript/src/policy.ts:914-931 | more outcomes never loosen the combined decision; the same outcomes in another order or number leave it unchanged |
| Backends.FailuresDeny | agent-governance-typescript/src/policy.ts:782-805 | a backend that throws denies, one without an evaluator changes nothing |
| Backends.SomebodyDenies | agent-governance-typescript/src/policy.ts:933-944 | the list of denying backends names exactly those that deny or fail and is empty exactly when there is none |
| Backends.AllMustAgree | agent-governance-typescript/src/policy.ts:607-654 | a request passes exactly when the engine permits it and no backend denies, fails or asks for review; somebody is named exactly when the result is a denial |
| Backends.AnswersCount | agent-governance-typescript/src/policy.ts:757-912 | what each kind of answer counts as, and which of two outcomes is the more severe |
| Backends.CombinedWhen | agent-governance-typescript/src/policy.ts:607-654 | the combined answer, case by case: allowed or not, with which action and verdict, and whom it names |
| CircuitBreakers.CircuitBreaker.constructor | agent-governance-typescript/src/metrics.ts:276-284 | starts closed, with the documented defaults |
| CircuitBreakers.CircuitBreaker.ReadState | agent-governance-typescript/src/metrics.ts:286-292 | reading may turn an open breaker half open and changes nothing else |
| CircuitBreakers.CircuitBreaker.CanExecute | agent-governance-typescript/src/metrics.ts:294-296 | true exactly when the state read is not open |
| CircuitBreakers.CircuitBreaker.OnSuccess | agent-governance-typescript/src/metrics.ts:298-302 | the breaker is as new |
| CircuitBreakers.CircuitBreaker.OnFailure | agent-governance-typescript/src/metrics.ts:304-310 | counts the failure and opens at the threshold |
| CircuitBreakers.BreakerIsHistory | agent-governance-typescript/src/metrics.ts:276-311 | after any interleaving of calls, for every threshold, the state read is the function of the history (trailing failures, time of the last one) if and only if the threshold is at least one or a failure is trailing, and the breaker was not opened at clock reading 0 |
| CircuitBreakers.OpenExactlyWhen | agent-governance-typescript/src/metrics.ts:286-310 | under a positive clock and for every threshold the breaker reads as open exactly when the trailing failures reach the threshold and the last one is more recent than the reset time |
| CircuitBreakers.PositiveClock | agent-governance-typescript/src/metrics.ts:286-310 | with a positive clock there is no exception |
| CircuitBreakers.LifeOfABreaker | agent-governance-typescript/src/metrics.ts:276-311 | open from as many failures as the threshold says, half open from the end of the reset time, closed by a success, open again by a failure |
| CircuitBreakers.ReadsAreInvisible | agent-governance-typescript/src/metrics.ts:286-292 | reading the state never changes what a later reading sees |
| AgentGraph.CollectDependents | agent-governance-typescript/src/cascade-containment.ts:396-406 | the depth-first walk over a shared visited set ends on every graph and visits only, and all of, what is reachable around it |
| AgentGraph.ComputeBlastRadius | agent-governance-typescript/src/cascade-containment.ts:241-250 | the number of other agents that transitively depend on the agent, cycles included |
| AgentGraph.AffectedWhen | agent-governance-typescript/src/cascade-containment.ts:241-250 | the agents counted are all others from which a chain of dependencies leads to the agent |
| AgentGraph.BlastRadiusGrows | agent-governance-typescript/src/cascade-containment.ts:241-250 | more agents or dependencies never lower a blast radius |
| AgentGraph.GetDepthTo | agent-governance-typescript/src/cascade-containment.ts:382-394 | the recursion with a loop in it ends on every graph and computes `DepthTo`, visited set included |
| AgentGraph.DepthIsWalk | agent-governance-typescript/src/cascade-containment.ts:382-394 | the depth is the length of a real walk and at most the number of newly visited agents |
| AgentGraph.DepthIsBounded | agent-governance-typescript/src/cascade-containment.ts:382-394 | the depth of a registered agent never exceeds the number of agents |
| DepthPaths.DepthIsExactOnTrees | agent-governance-typescript/src/cascade-containment.ts:382-394 | where every agent is reached along one walk only, the depth is the length of the longest walk: an instance of the next row |
| DepthPaths.DepthIsExactWhenGraded | agent-governance-typescript/src/cascade-containment.ts:382-394 | where all walks from the agent to any one agent with dependencies are equally long, branches that meet again included, the depth is the length of the longest walk |
| DepthPaths.DepthExactlyWhen | agent-governance-typescript/src/cascade-containment.ts:382-394 | on every graph: the depth is the length of the longest walk if and only if there is nothing below the agent, or the first path to some agent with dependencies is so long that no walk goes further than one step beyond it |
| DepthPaths.DepthIsLongestFirstPath | agent-governance-typescript/src/cascade-containment.ts:382-394 | on every graph the depth is 0 for an agent without dependencies, and otherwise the greatest number of agents on the first path to an agent that has some |
| DepthPaths.FirstPathIsFirst | agent-governance-typescript/src/cascade-containment.ts:386-392 | the first path comes first, in the order of the dependency lists, among all paths to the agent that pass no agent twice |
| DepthPaths.FirstPathIsWalk | agent-governance-typescript/src/cascade-containment.ts:386-392 | and it is one of them |
| AgentGraph.DepthCoversDistances | agent-governance-typescript/src/cascade-containment.ts:382-394 | on every graph, everything reachable is reachable within as many steps as the depth |
| AgentGraph.DepthCanFallShort | agent-governance-typescript/src/cascade-containment.ts:382-394 | a diamond on which the depth is 2 although a walk of length 3 exists |
| DiamondRun.DiamondIsReached | agent-governance-typescript/src/cascade-containment.ts:81-137 | a run of the manager that leads to that diamond, whenever the limits leave room for four agents |
| Cascade.CascadeContainmentManager.constructor | agent-governance-typescript/src/cascade-containment.ts:70-76 | starts empty, with defaults for what is left out |
| Cascade.CascadeContainmentManager.RegisterAgent | agent-governance-typescript/src/cascade-containment.ts:81-97 | adds a healthy agent, or leaves a known one as it is |
| Cascade.CascadeContainmentManager.AddDependency | agent-governance-typescript/src/cascade-containment.ts:103-137 | refuses on fan-out, then on depth; otherwise both edge lists and the breaker are updated |
| Containment.LinkIsAddedWhen | agent-governance-typescript/src/cascade-containment.ts:103-137 | fan-out first, then depth; otherwise both lists end in the other agent, and the link keeps its breaker or gets a closed one with the tier's limits |
| Containment.UnknownAgents | agent-governance-typescript/src/cascade-containment.ts:103-110 | unknown agents are registered first, provisional and healthy; a dependency declared before changes nothing |
| Containment.LimitsPerTier | agent-governance-typescript/src/cascade-containment.ts:26-55 | the limits of each tier without an entry, in numbers |
| Containment.ManagerDefaults | agent-governance-typescript/src/cascade-containment.ts:17-24 | the manager's own defaults, and that its caller's settings go before them |
| Containment.EntryOverDefault | agent-governance-typescript/src/cascade-containment.ts:340-343 | an entry's fields go before those of the default |
| Cascade.CascadeContainmentManager.CanCall | agent-governance-typescript/src/cascade-containment.ts:142-146 | true exactly when the link's breaker, read now, is not open |
| Cascade.CascadeContainmentManager.RecordSuccess | agent-governance-typescript/src/cascade-containment.ts:151-162 | resets the link's breaker and the target's health |
| Cascade.CascadeContainmentManager.ResetAgent | agent-governance-typescript/src/cascade-containment.ts:348-354 | makes the agent healthy |
| Cascade.CascadeContainmentManager.EmitEvent | agent-governance-typescript/src/cascade-containment.ts:460-479 | the event carries the number of transitive dependents and its own position in the log |
| Cascade.CascadeContainmentManager.PropagateHealth | agent-governance-typescript/src/cascade-containment.ts:203-239 | returns the events of the propagation |
| Cascade.CascadeContainmentManager.PropagateFrom | agent-governance-typescript/src/cascade-containment.ts:203-239 | the recursion ends, and its whole effect is one hop and at most one event |
| Cascade.CascadeContainmentManager.CountOpenBreakersTo | agent-governance-typescript/src/cascade-containment.ts:368-380 | counts open breakers while reading each one, which may change it |
| Cascade.CascadeContainmentManager.ApplyContainment | agent-governance-typescript/src/cascade-containment.ts:408-441 | quarantine, propagation and rollback as the tier's policy says |
| Cascade.CascadeContainmentManager.RecordFailure | agent-governance-typescript/src/cascade-containment.ts:167-197 | the log grows by exactly the events returned, in order; what it changes and returns is stated by `Containment.FailureChangesAgents` and `Containment.FailureReports` |
| Containment.FailureChangesAgents | agent-governance-typescript/src/cascade-containment.ts:167-239 | agent by agent: the target's health follows the breakers open towards it; failing under automatic quarantine it becomes unreachable, and then every other healthy direct dependent degrades; nobody else changes |
| Containment.FailureReports | agent-governance-typescript/src/cascade-containment.ts:408-479 | the events, all of them and in order, each with source, affected agents, action, reason, blast radius and place in the log: circuit opened if and only if the link reads open, quarantine if and only if failing under automatic quarantine, propagation if and only if some dependent was healthy, rollback if and only if unreachable under automatic rollback |
| Containment.DegradingMeaning | agent-governance-typescript/src/cascade-containment.ts:212-220 | the agents a propagation names are the other direct dependents that were healthy |
| Containment.PropagationEffect | agent-governance-typescript/src/cascade-containment.ts:203-239 | propagation on its own: which agents degrade, and the one event |
| Containment.SuccessAndReset | agent-governance-typescript/src/cascade-containment.ts:151-162 | a success makes the target healthy and the link's breaker as new, a reset makes the agent healthy, and nothing else changes |
| Cascade.RunKeeps | agent-governance-typescript/src/cascade-containment.ts:103-137 | in every run: mirrored edge lists without duplicates, fan-out within the tier's limit, a breaker for every edge and no other, each event at its own position, and a log that only grows |
| Cascade.StepKeeps | agent-governance-typescript/src/cascade-containment.ts:103-239 | each operation keeps these |
| Cascade.AddDependencyKeeps | agent-governance-typescript/src/cascade-containment.ts:103-137 | an accepted call adds exactly its edge, a refused one none |
| Cascade.AddDependencyNeverShrinks | agent-governance-typescript/src/cascade-containment.ts:103-137 | no call lowers any agent's blast radius |
| Cascade.AcceptedIsShallow | agent-governance-typescript/src/cascade-containment.ts:115-127 | after an accepted new dependency, everything reachable through it is within the policy's depth of the agent, in steps, cycles included |
| Cascade.RefusedIsDeep | agent-governance-typescript/src/cascade-containment.ts:115-127 | a dependency refused for its depth would have made a walk longer than the policy allows |
| Cascade.RecordFailureReports | agent-governance-typescript/src/cascade-containment.ts:167-197 | recording a failure changes health, breaker states and the end of the log only, and the log by exactly the events returned |
| Cascade.FailureIsContained | agent-governance-typescript/src/cascade-containment.ts:167-239 | besides the target only its healthy direct dependents can change health, and they degrade |
| Cascade.OneBreakerPerLink | agent-governance-typescript/src/cascade-containment.ts:129-135 | there are as many breakers as links exactly when no two links share a key, and so whenever no caller's id is another caller's followed by an arrow |
| Cascade.LinkKeyIsInjective | agent-governance-typescript/src/cascade-containment.ts:364-366 | two callers neither of which extends the other by an arrow never share a key for two links |
| Cascade.LinkKeysCanCollide | agent-governance-typescript/src/cascade-containment.ts:364-366 | two different callers can share a key, for some agents called, if and only if one's id is the other's followed by an arrow and any text |
| Cascade.SharedKeyMeansClash | agent-governance-typescript/src/cascade-containment.ts:364-366 | a key shared by two links means that one caller's id extends the other's by an arrow |
| Cascade.ClashNeedsArrow | agent-governance-typescript/src/cascade-containment.ts:364-366 | which takes an id with an arrow in it, so that callers without one have keys of their own |
| LinkHistory.BreakerFollowsCalls | agent-governance-typescript/src/cascade-containment.ts:142-197 | in every run each breaker is the one that the calls recorded under its key lead to, however often it was read in passing |
| LinkHistory.CallIsRefusedWhen | agent-governance-typescript/src/cascade-containment.ts:139-146 | after any run, for every threshold, a call is refused exactly when the failures recorded under the link's key since its last success reach the threshold and the last is more recent than the reset time |
| LinkHistory.CallsAreBetween | agent-governance-typescript/src/cascade-containment.ts:148-197 | unless the caller and another caller of the run extend each other by an arrow, the calls under the link's key are those between the two agents |
| LinkHistory.LinkIsRefusedWhen | agent-governance-typescript/src/cascade-containment.ts:139-146 | and then the link's breaker refuses exactly for the failures between these two agents |
| LinkHistory.OthersRefuseExactlyWhen | agent-governance-typescript/src/cascade-containment.ts:139-197 | two callers' ids clash if and only if some run, in which nobody else calls, refuses a link of the one none of whose own calls failed; for every configuration with room for one dependency and a positive reset time |
| LinkHistory.ReadIntoCounts | agent-governance-typescript/src/cascade-containment.ts:368-380 | the count is the number of agents that are cut off, although each reading may change a breaker |
| LinkHistory.TargetHealth | agent-governance-typescript/src/cascade-containment.ts:180-193 | the target's health after a failure, from the number of agents cut off from it and the quarantine policy |
| AuditChain.AuditLogger.constructor | agent-governance-typescript/src/audit.ts:15-21 | an empty log with the default limit |
| AuditChain.AuditLogger.Log | agent-governance-typescript/src/audit.ts:24-66 | the entry returned is the newest one of the log that never forgets, also after evictions |
| AuditChain.AuditLogger.Verify | agent-governance-typescript/src/audit.ts:69-95 | the loop decides whether every entry chains to its predecessor and carries its own hash |
| AuditChain.VerifiesWhen | agent-governance-typescript/src/audit.ts:66-95 | a log verifies if and only if every entry carries the hash of its contents and that of the entry before it, the seam, or sixty-four zeros |
| AuditChain.FullLogChains | agent-governance-typescript/src/audit.ts:23-66 | every entry logged has its body, the hash of its contents, and the hash of the entry before it or sixty-four zeros |
| AuditChain.TamperingIsNoticed | agent-governance-typescript/src/audit.ts:69-95 | an entry changed under its old hash is noticed unless the two contents collide |
| AuditChain.RetainedWindow | agent-governance-typescript/src/audit.ts:57-63 | after any calls, with any limit, the entries kept are the last min(n, limit) of the full log, and the seam is the hash of the last one evicted |
| AuditChain.RunVerifies | agent-governance-typescript/src/audit.ts:24-95 | every run verifies |
| AuditChain.PrefixVerifies | agent-governance-typescript/src/audit.ts:69-95 | dropping entries from the end is not detected |
| AuditChain.SameLastHash | agent-governance-typescript/src/audit.ts:10-13 | two verifying logs of one length with the same last hash have the same entries and anchor, or hold a hash collision |
| AuditChain.HashesAreDistinct | agent-governance-typescript/src/audit.ts:24-66 | no hash occurs twice in a log, or the log holds a collision or hits the genesis value |
| AuditChain.FrontDropFails | agent-governance-typescript/src/audit.ts:69-95 | dropping entries from the front with the anchor kept fails verification, or the log holds a collision or hits the genesis value |
| AuditChain.LastHashIdentifiesLog | agent-governance-typescript/src/audit.ts:10-13 | the last hash identifies a whole history, whatever the lengths, under the same proviso |
| Identity.GrantsIsTransitive | agent-governance-typescript/src/identity.ts:174-185 | a wildcard cannot be widened by being granted through another one |
| Identity.GrantsExactlyWhen | agent-governance-typescript/src/identity.ts:174-185 | what a grant covers, spelled out: `*` everything, any grant itself, and `p:*` exactly what begins with `p:` |
| Identity.PrefixIsAll | agent-governance-typescript/src/identity.ts:174-185 | a prefix wildcard alone covers nothing that neither equals it nor begins with its prefix and a colon |
| Identity.SubsetIsContainment | agent-governance-typescript/src/identity.ts:206-213 | the check made at delegation holds exactly when the child accepts nothing its parent does not |
| Identity.AgentIdentity.constructor | agent-governance-typescript/src/identity.ts:33-61 | the fields as given |
| Identity.AgentIdentity.HasCapability | agent-governance-typescript/src/identity.ts:174-185 | true if and only if some capability held is `*`, or the one asked for, or `p:*` where the one asked for begins with `p:` |
| Identity.AgentIdentity.Delegate | agent-governance-typescript/src/identity.ts:201-228 | succeeds if and only if every capability is held, in the same literal terms; the refusal names the first one that is not; the child is one level deeper, names its parent and is active |
| Identity.AgentIdentity.SuspendIdentity | agent-governance-typescript/src/identity.ts:146-152 | refused exactly for a revoked identity |
| Identity.AgentIdentity.RevokeIdentity | agent-governance-typescript/src/identity.ts:154-157 | the identity is revoked |
| Identity.AgentIdentity.ReactivateIdentity | agent-governance-typescript/src/identity.ts:159-165 | refused exactly for a revoked identity |
| Identity.AuthorityNeverGrows | agent-governance-typescript/src/identity.ts:197-228 | along any chain of delegations every ancestor accepts what a descendant accepts, and the depth counts the delegations |
| Identity.RevocationIsFinal | agent-governance-typescript/src/identity.ts:146-165 | no sequence of registrations, revocations and status changes makes a revoked identity anything else |
| Identity.ChainIsRevoked | agent-governance-typescript/src/identity.ts:437-465 | revoking the head of a registered delegation chain revokes the whole chain, for good |
| Identity.GapStopsRevocation | agent-governance-typescript/src/identity.ts:455-463 | along any delegation chain without repetition, a registered link not yet revoked is revoked with the head if and only if every link up to it is registered |
| Identity.RevokedWith | agent-governance-typescript/src/identity.ts:437-465 | a registered identity goes if and only if a line of registered children leads down to it |
| Identity.IdentityRegistry.constructor | agent-governance-typescript/src/identity.ts:414-416 | an empty registry |
| Identity.IdentityRegistry.RegisterIdentity | agent-governance-typescript/src/identity.ts:418-430 | refused exactly for an identifier already there |
| Identity.IdentityRegistry.RevokeWithDelegates | agent-governance-typescript/src/identity.ts:437-440 | marks exactly the registered identities reachable by child links and leaves all others unchanged |
| Identity.IdentityRegistry.RevokeRecursive | agent-governance-typescript/src/identity.ts:442-465 | ends on every parent relation, cyclic ones included, and visits everything below once |
| Templates.MatchIsExact | agent-governance-typescript/src/credential-vault.ts:50-51 | a greedy scan finds a placeholder at a position exactly when the regular expression matches there, and then there is only one match |
| Templates.SpacedPlaceholder | agent-governance-typescript/src/credential-vault.ts:50-51 | for any white space, any valid name and any text behind it: two braces, blanks, `cred:`, the name, blanks, two braces are a placeholder of that name |
| Templates.PiecesAreLossless | agent-governance-typescript/src/credential-vault.ts:594-610 | cutting a text at its placeholders loses nothing |
| Templates.HandleSplits | agent-governance-typescript/src/credential-vault.ts:98-101 | a written handle is found in any surroundings, and the texts before and after it are cut on their own |
| Templates.TemplateNames | agent-governance-typescript/src/credential-vault.ts:594-604 | exactly the handles of a printed template are found if and only if its literal texts hold no placeholder themselves |
| Templates.TemplateFills | agent-governance-typescript/src/credential-vault.ts:606-610 | substituting into a printed template fills it: each handle once, values verbatim and never expanded again |
| Templates.SubstituteWithout | agent-governance-typescript/src/credential-vault.ts:606-610 | names without a value stay as they were written |
| Templates.FindFrom | agent-governance-typescript/src/credential-vault.ts:598-601 | the stateful search finds the next placeholder, or there is none |
| Templates.CollectFrom | agent-governance-typescript/src/credential-vault.ts:594-604 | the collecting loop adds the text's names in order, without repetition |
| CredentialVault.CollectPlaceholders | agent-governance-typescript/src/credential-vault.ts:594-604 | the names of all strings and keys of a payload, in the order of first appearance |
| CredentialVault.RenderingIsStringwise | agent-governance-typescript/src/credential-vault.ts:612-636 | substituting keeps the payload's shape and treats each string and key of the walk on its own |
| CredentialVault.RenderRebuilds | agent-governance-typescript/src/credential-vault.ts:624-636 | rendering is substituting and then building every object anew, field by field |
| CredentialVault.RenderingExactlyWhen | agent-governance-typescript/src/credential-vault.ts:624-636 | the payload rendered is the payload substituted, shape and all, if and only if no two keys of one object are rendered alike |
| CredentialVault.LastKeyWins | agent-governance-typescript/src/credential-vault.ts:624-636 | where keys are rendered alike the last one's value is kept |
| CredentialVault.ShapeAndStringsAreAll | agent-governance-typescript/src/credential-vault.ts:612-636 | shape and strings together are the whole tree |
| CredentialVault.RequestedMeaning | agent-governance-typescript/src/credential-vault.ts:594-604 | the names collected are distinct and are those of the placeholders, no others |
| CredentialVault.AllowedExactlyWhen | agent-governance-typescript/src/credential-vault.ts:503-587 | a call is allowed if and only if the policy check, whenever there is one, holds of the call's agent, action, service and policy version and exactly the names of the payload's placeholders, and every name is on the allowlist and open to the agent for the action; it then asks for one handle at most |
| CredentialVault.RefusalLeaves | agent-governance-typescript/src/credential-vault.ts:503-587 | the receipt, and the events in full: one denial of the first name outside the allowlist; or of the first name asked for, when the policy refuses; or else approvals up to the first name that is not open, and its denial |
| CredentialVault.ApprovalLeaves | agent-governance-typescript/src/credential-vault.ts:563-587 | an allowed call leaves one approval for every name, in order |
| CredentialVault.AccessWhen | agent-governance-typescript/src/credential-vault.ts:326-332 | a handle is open if and only if the agent's profile binds just it to the action and the vault holds it |
| CredentialVault.AllowedRendersAll | agent-governance-typescript/src/credential-vault.ts:606-636 | on an allowed call the payload is rendered with the vault's values, which cover every placeholder of every string and key; each is replaced in its place if and only if no two keys of an object are rendered alike |
| CredentialVault.SecretsStayInPayloads | agent-governance-typescript/src/credential-vault.ts:503-587 | two vaults that differ in secrets only give the same decision, receipt and audit events |
| CredentialVault.OnlyTheBoundSecretShows | agent-governance-typescript/src/credential-vault.ts:326-332 | and the same payload too unless they differ in the secret bound to the action |
| CredentialVault.Vault.Put | agent-governance-typescript/src/credential-vault.ts:256-274 | refuses names that could not be written as a placeholder; counts versions |
| CredentialVault.Vault.StoredHandleIsFound | agent-governance-typescript/src/credential-vault.ts:256-259 | every name the vault stores is found as a placeholder wherever it is written, once, and replaced by its secret |
| CredentialVault.Vault.Rotate | agent-governance-typescript/src/credential-vault.ts:276-291 | refuses unknown names; changes the secret only |
| CredentialVault.Vault.Delete | agent-governance-typescript/src/credential-vault.ts:293-300 | removes the record and tells whether there was one |
| CredentialVault.Vault.RegisterProfile | agent-governance-typescript/src/credential-vault.ts:120-127 | refuses an empty agent identifier; otherwise replaces the profile |
| CredentialVault.Vault.RevokeProfile | agent-governance-typescript/src/credential-vault.ts:319-321 | removes the profile and tells whether there was one |
| CredentialVault.Vault.CheckAccess | agent-governance-typescript/src/credential-vault.ts:326-332 | true exactly when the profile binds this handle to the action and the vault holds it |
| CredentialVault.Vault.ResolveOne | agent-governance-typescript/src/credential-vault.ts:341-376 | the value exactly when there is access, and one audit event either way |
| CredentialVault.CredentialInjector.InjectPayload | agent-governance-typescript/src/credential-vault.ts:503-587 | secrets and profiles are left alone, and the vault's log grows by exactly the events returned |
| CredentialVault.CredentialInjector.ResolveAll | agent-governance-typescript/src/credential-vault.ts:563-583 | the resolving loop stops at the first denial |
| EditDistance.Levenshtein | agent-governance-typescript/src/mcp.ts:119-132 | the filled table ends in the recursive distance |
| EditDistance.DistanceIsShortestScript | agent-governance-typescript/src/mcp.ts:119-132 | the distance is the least number of insertions, deletions and replacements that turn one string into the other |
| EditDistance.Symmetric | agent-governance-typescript/src/mcp.ts:119-132 | the distance is symmetric |
| EditDistance.Triangle | agent-governance-typescript/src/mcp.ts:119-132 | the triangle inequality |
| EditDistance.ZeroOnlyOnEqual | agent-governance-typescript/src/mcp.ts:119-132 | zero exactly on equal strings |
| EditDistance.Bounds | agent-governance-typescript/src/mcp.ts:119-132 | between the difference of the lengths and the longer length |
| EditDistance.DetectTyposquatting | agent-governance-typescript/src/mcp.ts:213-227 | one threat for each known name within two single edits of the lower-cased name, itself excepted, high for one edit, in order |
| EditDistance.ReportedWhen | agent-governance-typescript/src/mcp.ts:213-227 | a known name is reported if and only if it is one edit away, with high severity, or two, with medium |
| Luhn.IsValidNpi | agent-governance-typescript/src/healthcare-identifiers.ts:106-126 | ten digits whose weighted sum, with the prefix 80840, is divisible by ten |
| Luhn.NpiInDigits | agent-governance-typescript/src/healthcare-identifiers.ts:106-126 | the checksum written out in the ten digits, 24 for the prefix included |
| Luhn.SubstitutionIsDetected | agent-governance-typescript/src/healthcare-identifiers.ts:111-125 | every change of one digit changes the checksum modulo ten, for every length |
| Luhn.TranspositionIsDetected | agent-governance-typescript/src/healthcare-identifiers.ts:111-125 | swapping neighbours goes unnoticed exactly for equal digits and for 0 with 9 |
| Luhn.CheckDigitIsUnique | agent-governance-typescript/src/healthcare-identifiers.ts:111-125 | every prefix has exactly one valid check digit |
| Luhn.NpiSubstitution | agent-governance-typescript/src/healthcare-identifiers.ts:106-126 | changing one digit of a valid identifier makes it invalid |
| Luhn.NpiCheckDigit | agent-governance-typescript/src/healthcare-identifiers.ts:106-126 | nine digits extend to exactly one valid identifier |
| BurstWindow.LargestWindow | scripts/contributor_check.py:749-762 | the forward search finds a set at least as large as that of any seven days, and the set of some seven days |
| BurstWindow.CheckSprayPattern | scripts/contributor_check.py:734-777 | first the burst's signal, high exactly when some seven days hit five repositories or more, with the largest such number, otherwise medium from eight repositories in all; behind it the self-promotion signals, which are a parameter, unless there are no issues |
| BurstWindow.SprayExactlyWhen | scripts/contributor_check.py:745-777 | which signal, if and only if: high for five repositories within some seven days, medium for eight in all without that, otherwise none |
| BurstWindow.MaxWindow | scripts/contributor_check.py:392-399 | the most forks any fork has within 72 hours to either side |
| BurstWindow.WindowsInSeconds | scripts/contributor_check.py:392-399 | what the windows hold, counted in seconds: 604800 forward for issues, 259200 to either side, or forward, for forks |
| BurstWindow.NoBurstIsMissed | scripts/contributor_check.py:392-399 | no 72 hours hold more forks than the number reported |
| BurstWindow.HalfIsWithin | scripts/contributor_check.py:392-399 | some 72 hours hold at least half of the number reported, rounded up, whatever the forks |
| BurstWindow.ReportCanOverstate | scripts/contributor_check.py:418-424 | an instance: five reported as within 72 hours although no 72 hours hold more than three |
| BurstWindow.TruthfulExactlyWhen | scripts/contributor_check.py:392-424 | some 72 hours hold exactly as many forks as reported if and only if around some fork there are so many and all of these lie within 72 hours of each other |
| BurstWindow.BurstExactlyWhen | scripts/contributor_check.py:411-424 | some 72 hours hold at least so many forks if and only if they do from some fork on |
| BurstWindow.SignalCanBeUnearned | scripts/contributor_check.py:411-424 | an instance: three forks around one although no 72 hours hold more than two |
| BurstWindow.CheckForkBurst | scripts/contributor_check.py:355-426 | from the repositories, with the ninety-day, curated-list and pull-request filters: which signal is raised, its number, exactly when that number is true of some 72 hours and when the signal is earned within 72 hours; an earned one is always raised, and with none raised no 72 hours hold five forks or three curated ones |
| BurstWindow.CollectForks | scripts/contributor_check.py:360-390 | the loop keeps exactly the forks the filters let through, and the curated ones among them, in order |
| BurstWindow.ForkCountsWhen | scripts/contributor_check.py:360-390 | which forks count: younger than ninety-one days, and without a pull request of the owner |

## Left out

- SHA-256, Ed25519, AES-GCM, base64 and key formats: the audit hash is an arbitrary function and every result about it names the collision it would need; identifiers of new identities are arguments.
- Files, the network, backends over HTTP and persistence of the vault: `load` and `flush` are not part of this model, and neither are records that only a file brings in.
- Atoms of policy conditions: the regular expressions behind single comparisons are one abstract function from the trimmed text to a truth value. Legacy flat conditions and the legacy `evaluate` are not modelled.
- `parseLimit`: a limit is given as an optional count and a period; an absent count stands for a text that is no number.
- SqlWords.VerbExactlyWhen: a statement's own verb is that of its identifiers in the ASCII letters, digits and underscores of the source's own `IDENT` pattern; identifiers with `$` or letters outside ASCII and names in square brackets are not covered, and no grammar tells a verb from a name spelled like one, such as a table expression called `merge`.
- Table, target and function facets of SQL, and the Kubernetes facets: catalogues of regular expressions.
- Fractional or missing numbers for thresholds, priorities and clocks; negative limits for the audit log.
- Field order: objects list their fields in the order of the walk; JavaScript's own order of keys that look like array indices, and its key `__proto__`, are not modelled.
- Changes of the vault while a policy check is awaited: the check is a function of its context, and the sorted list of handles in the context is modelled as a set.
- `analyze`, `getGraph` and other read-outs of the manager, sponsor lookup and listings of the registry, clearing of the audit events: they would only add easy members.
- Breakers inside the manager are values in a map, and agent nodes too; aliases that callers might keep are not modelled.
- Timestamps, random event ids, reasons of status changes and messages of most signals.
- Cascade.RunKeeps: does not bound dependency depth over the whole graph, because `addDependency` never rechecks the agents upstream.
- PolicyRuns.AdmissionsAreBounded: assumes one limit per rule name, because windows are keyed by the rule name alone.
- EditDistance.DetectTyposquatting: lower-casing is a parameter, any function on texts.
- BurstWindow.CheckForkBurst: whether a list is curated and whether a fork has a pull request are given as flags.
- BurstWindow.CheckSprayPattern: what makes a self-promotion signal, a search for repository names in the issues' texts, is not modelled; the signals are a parameter.
- Expiry of identities (`isActive`): none of the operations modelled reads it.
- Lifecycle, rings, kill switch, client, metrics sinks, trace capture and the remaining scripts.
