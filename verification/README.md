# RustBase verification

A model of the parts of RustBase where a wrong step does real damage, with proofs about every input, every run or
every interleaving. SQLite is a finite map of rows, and one SQL statement or one explicit transaction is one atomic
step. `dafny verify dfyconfig.toml` covers the whole project.

- **Filters** (`Filter`, `FilterParser`, `FilterLexing`, `FilterGrammar`, `FilterPrinter`, `FilterSql`,
  `FilterSqlReader`, `SqlSemantics`, `FilterColumns`): the text grammar and the parser that accepts exactly it, the
  in-memory evaluation, the SQL generator and its three-valued meaning.
- **Access rules** (`RuleTemplate`, `Placeholders`, `TemplateMeaning`, `TemplateSafety`): substitution of request values
  into rule text before it is parsed, and why no value can change what a rule says.
- **Policies** (`Policy`, `PolicyEngine`, `PolicySweep`, `PolicyRuns`, `PolicyAnswers`, `PolicyAncestors`): the
  refinement order, the cascade over a chain, the sweeps that implement it over the stores, what each request answers,
  and the invariant of whole runs of requests.
- **Records** (`Schemas`, `DocumentStore`, `DocumentDatabase`, `DocumentRefinement`, `DocumentRuns`, `DocumentAnswers`,
  `Pages`): typed tables altered column by column, as a refinement of a store of plain documents.
- **Small protocols** (`EmailOtp`, `OneShot`, `MailQuota`, `Lockout`, `Revocation`): each against a specification that
  remembers the whole history.

Clocks, generated ids, quotas read, JSON text conversion and SQLite's conversions between text and numbers are
parameters. A codec is a pair of functions; the two laws asked of it are that no JSON text denotes itself as a string
and that what is written is read back, if not as the same value, then as one that is written the same. Hashes of
secrets are modelled by the secrets, since only their equality is used.

Some statements in the source's comments do not hold of its code. The code is followed, a lemma gives a case where the
statement fails, and the exact condition is proved: the two meanings of a filter are not consistent on nulls, unlike
numbers, JSON strings, ids and anchored patterns (`SqlSemantics.NullsDiffer` and the lemmas after it); deleting a
workspace toggle can leave an app outside its bound (`PolicyRuns.DeletionCanBreakToggle`); a lock does not bind the
apps of an open workspace (`PolicyAncestors.LocksCanBeEvaded`); a patch that keeps column types can lose text
(`DocumentRuns.RetypingLosesText`); overlapping wrong guesses are not bounded by the attempt cap
(`EmailOtp.OverlapEvadesBudget`), and the reported attempts never reach zero (`EmailOtp.AnswersCount`); the default
revocation ttl is shorter than the life of a token with leeway (`Revocation.DefaultsForgetTooSoon`), and a revocation
can be lost to the late removal of its predecessor (`Revocation.RevocationCanBeLost`).

## Model

| member | source | states |
|---|---|---|
| `LikeMeaning.LikeMatchIsCut` | crates/rustbase-core/src/filter.rs:113-137 | the backtracking matcher accepts a value if and only if it can be cut into consecutive pieces, one per pattern character (`%` any run, `_` one character, otherwise that character) |
| `LikeMeaning.LikeConcat` | crates/rustbase-core/src/filter.rs:113-137 | a concatenated pattern matches if and only if the value splits in two parts matching the two patterns |
| `LikeMeaning.WrappedIsSubstring` | crates/rustbase-db/src/filter_sql.rs:44-51 | the pattern wrapped in `%` matches if and only if some substring matches the bare pattern |
| `ComparisonMeaning.ComparisonsMean` | crates/rustbase-core/src/filter.rs:56-108 | each of the six comparisons, a missing field being null: `=` and `!=` by value; `>`, `>=`, `<`, `<=` by numeric value, by the first differing character or proper prefix, and by false before true; never between different kinds |
| `ComparisonMeaning.PatternsAndListsMean` | crates/rustbase-core/src/filter.rs:70-77 | `~` holds exactly of strings that can be cut along the pattern, and a list exactly of its members |
| `FilterParser.OrExpr` | crates/rustbase-core/src/filter_parser.rs:50-58 | every successful expression consumes input, which is what makes the mutually recursive grammar terminate |
| `FilterParser.Comparison` | crates/rustbase-core/src/filter_parser.rs:74-106 | a successful comparison consumes input, for any pair of operand readers |
| `FilterParser.JsonValue` | crates/rustbase-core/src/filter_parser.rs:116-131 | a successful literal consumes input |
| `FilterGrammar.AndChain` | crates/rustbase-core/src/filter_parser.rs:60-64 | a printed conjunction of any length is read back as its left-nested tree before the rest of the text is looked at |
| `FilterGrammar.ParserIsGrammar` | crates/rustbase-core/src/filter_parser.rs:37-160 | for every text and tree: the parser answers the tree if and only if the text is a spelling of it by the grammar, in any spacing and with any parentheses; it answers empty exactly on blank text, trailing input only after a spelled expression, and a syntax error only if no prefix is one |
| `FilterLexing.LiteralRead` | crates/rustbase-core/src/filter_parser.rs:116-140 | a spelled literal of any kind, fractions included, is read as the value of its digits by place and sign, and what follows is left |
| `FilterPrinter.ParseUndoesPrint` | crates/rustbase-core/src/filter_parser.rs:37-140 | every tree without `In`, over legal identifiers, quote-free strings, booleans, null and integers up to 2^53, printed with parentheses only where precedence or left association needs them, parses to itself |
| `FilterPrinter.PrintInjective` | crates/rustbase-core/src/filter_parser.rs:37-140 | two different trees never print alike, so the grammar is unambiguous on printed text |
| `RuleTemplate.Substitute` | crates/rustbase-core/src/rule_template.rs:34-62 | the scanning loop computes the recursive substitution, including its errors for an unterminated or unknown placeholder; inserted text is never scanned again |
| `Placeholders.PlaceholderMeans` | crates/rustbase-core/src/rule_template.rs:34-79 | a placeholder stands for the id, the email or the workspace of the requester as its path says, white space around the path ignored; any other path is an error that carries it |
| `Placeholders.IdAlone` | crates/rustbase-core/src/rule_template.rs:64-79 | `{{request.auth.id}}` becomes the id |
| `Placeholders.EmailAlone` | crates/rustbase-core/src/rule_template.rs:64-79 | `{{request.auth.email}}` becomes the email |
| `Placeholders.WorkspaceAlone` | crates/rustbase-core/src/rule_template.rs:64-79 | `{{request.auth.workspace}}` becomes the workspace |
| `Placeholders.UnclosedFails` | crates/rustbase-core/src/rule_template.rs:42-50 | braces that never close are an error |
| `Placeholders.ValueTextMeans` | crates/rustbase-core/src/rule_template.rs:75-78 | an absent value becomes `null`; any other becomes a JSON string that section 7 of RFC 8259 reads as exactly that value, and none is shorter |
| `TemplateMeaning.OrCommutes` | crates/rustbase-core/src/rule_template.rs:34-79 | at every position of a rule, parsing the substituted text gives the placeholder tree filled with the escaped context values, and stops at the same place |
| `TemplateSafety.ParsedIsQuoted` | crates/rustbase-core/src/filter_parser.rs:133-140 | every text the parser accepts has balanced quotes, no backslash outside a literal and a literal after each `~` |
| `TemplateSafety.RuleShapeIsFixed` | crates/rustbase-core/src/rule_template.rs:34-79 | for every context: if no value used has a quote (and none is absent after `~`) the rule parses to its own tree with the escaped values in place, otherwise the substituted text is rejected; no value changes the shape of a rule |
| `TemplateSafety.SubstitutionCommutes` | crates/rustbase-core/src/rule_template.rs:34-79 | parsing after substituting equals substituting into the parsed placeholder tree if and only if no value used needs a JSON escape (and none is absent after `~`) |
| `FilterSql.QuoteIdent` | crates/rustbase-db/src/filter_sql.rs:95-107 | quotes exactly the names of the form letter or underscore, then letters, digits and underscores; every other name is an error carrying it |
| `FilterSql.SqlFragment.Translate` | crates/rustbase-db/src/filter_sql.rs:28-68 | appends to the shared fragment the text and the bindings of the filter, or stops with the leftmost illegal identifier, keeping what was there as a prefix |
| `FilterSql.SqlFragment.Binary` | crates/rustbase-db/src/filter_sql.rs:70-79 | appends both sides with the connective between them in parentheses, or fails with the leftmost illegal identifier |
| `FilterSql.SqlFragment.CompareTo` | crates/rustbase-db/src/filter_sql.rs:81-90 | appends one comparison and its single binding, or fails on its identifier |
| `FilterSql.SqlFragment.Member` | crates/rustbase-db/src/filter_sql.rs:52-66 | the loop appends one mark and one binding per listed value, in order |
| `FilterSql.FilterToSql` | crates/rustbase-db/src/filter_sql.rs:22-26 | a fresh fragment receives exactly the text and bindings of the filter, or the error |
| `FilterSqlReader.SqlIsFaithful` | crates/rustbase-db/src/filter_sql.rs:22-107 | reading the emitted text by the grammar of the fragment, one binding per `?` from left to right, consumes all text and all bindings and rebuilds the filter with its patterns wrapped in `%` |
| `FilterSqlReader.TextIsShape` | crates/rustbase-db/src/filter_sql.rs:22-107 | two filters give the same SQL text if and only if they differ in literals only: no literal reaches the text |
| `SqlSemantics.CompareAgrees` | crates/rustbase-db/src/records.rs:246-280 | on every stored row, for every operator, column (JSON, id and times included) and literal: three-valued SQL comparison of the encoded cell, after SQLite's conversion of the parameter, and in-memory comparison of the document's value agree if and only if the stated condition on type, cell and literal holds; a null never qualifies |
| `SqlSemantics.PatternAgrees` | crates/rustbase-db/src/filter_sql.rs:44-51 | likewise for a pattern: agreement if and only if the stored text contains no match that is not the whole text (for JSON: its text is found exactly when its value matches; for other columns: not found) |
| `SqlSemantics.MeaningsAgree` | crates/rustbase-core/src/filter.rs:51-108 | when every leaf of the filter is agreeable on the row, the SQL meaning is never unknown and is true exactly when the in-memory evaluation of the row's document is |
| `SqlSemantics.PlainIsComparable` | crates/rustbase-core/src/filter.rs:51-108 | in particular for filters without patterns over declared non-JSON fields whose values are non-null and of the literal's kind and number representation |
| `SqlSemantics.PatternFormsAgree` | crates/rustbase-db/src/filter_sql.rs:44-51 | the in-memory and the SQL form of `~` accept the same values if and only if the pattern has a `%` in its leading and in its trailing run of wildcards |
| `SqlSemantics.EchoAgrees` | crates/rustbase-db/src/records.rs:77-83 | the record echoed on creation, if its keys are the schema's and its values well typed, is judged in memory as SQL judges the row stored for it |
| `SqlSemantics.NullsDiffer` | crates/rustbase-core/src/filter.rs:48-51 | a null field and a null literal are unknown to SQL and decided in memory |
| `SqlSemantics.UnlikeNumbersDiffer` | crates/rustbase-core/src/filter.rs:82-87 | an integer literal equals a stored float for SQL and never in memory |
| `SqlSemantics.JsonStringsDiffer` | crates/rustbase-db/src/records.rs:256-265 | every string stored in a JSON field whose text reads back as it is found by its value in memory and not by SQL |
| `SqlSemantics.IdsDiffer` | crates/rustbase-api/src/realtime.rs:164-170 | for every row, SQL finds it by its id and memory does not, since a document's fields lack the id |
| `SqlSemantics.IllTypedEchoDiffers` | crates/rustbase-db/src/records.rs:77-83 | the echo of a created record keeps a number given to a boolean field, where the column is null |
| `SqlSemantics.AnchoredPatternsDiffer` | crates/rustbase-db/src/filter_sql.rs:44-51 | for every pattern not open on both sides there is a text that SQL finds and memory does not |
| `SqlSemantics.RuleScopesRows` | crates/rustbase-api/src/records.rs:124-130 | read back from its own SQL text, a list query selects a row if and only if the access rule and the caller's filter both select it |
| `SqlSemantics.QueryAgreesWithFind` | crates/rustbase-db/src/records.rs:86-140 | after any run of requests in which no patch fails midway, on every stored row: the query, read back from its SQL text, is true exactly when the document that a find answers passes the filter in memory, wherever the filter is comparable |
| `FilterColumns.ValidateFilterColumns` | crates/rustbase-api/src/records.rs:149-156 | the loop builds the implicit and declared names and the walk reports the leftmost field outside them |
| `FilterColumns.WalkFindsUnknown` | crates/rustbase-api/src/records.rs:158-185 | the walk passes exactly when every field of the filter is known and otherwise names the first unknown one in reading order |
| `FilterColumns.CheckFindsUnknown` | crates/rustbase-api/src/records.rs:149-185 | for a collection, the names that pass are the declared fields, the id and the two times; the first other one is reported |
| `FilterColumns.TranslationStops` | crates/rustbase-db/src/filter_sql.rs:28-107 | the translation fails exactly on filters with a field that is no column name, dotted ones included, and names the first |
| `FilterColumns.EmittedNames` | crates/rustbase-db/src/filter_sql.rs:28-107 | the names standing between double quotes in the emitted text are the filter's fields in order |
| `FilterColumns.AcceptedFiltersCompile` | crates/rustbase-api/src/records.rs:149-185 | for a valid schema and its table, a filter that passes the column check always compiles and every quoted name in the text is a column of the table |
| `FilterColumns.AcceptedFiltersFitTable` | crates/rustbase-db/src/collections.rs:161-263 | the same after any run of collection and record requests, for the schema then stored |
| `Policy.ValidateChain` | crates/rustbase-core/src/config.rs:204-217 | accepts exactly the chains in which each level refines the one above |
| `Policy.AllowsMeans` | crates/rustbase-core/src/config.rs:28-37 | a range allows the proper ranges inside it, a set its subsets, a locked toggle the toggles of its value, an open one every toggle, a free value every free value; kinds do not mix |
| `Policy.ChainErrorIsFirst` | crates/rustbase-core/src/config.rs:195-217 | a rejected chain is reported by its first offending level: its name and value, and the value and name of the level above it as the bound |
| `Policy.CascadeClamp` | crates/rustbase-core/src/config.rs:227-259 | the loop computes the fitted chain and the change list of the recursive definition |
| `Policy.FitLaws` | crates/rustbase-core/src/config.rs:39-50 | a fitted value keeps its kind, is stable under refitting, and is allowed by its parent if and only if the kinds agree and the parent is a proper range (the documented promise of `clamp` holds on exactly those) |
| `Policy.FitIsMeet` | crates/rustbase-core/src/config.rs:83-162 | the fitted value keeps everything that parent and child both allow, is the parent if they have nothing in common, and once clamped lets through only what the parent allows |
| `Policy.CascadeRevalidates` | crates/rustbase-core/src/config.rs:219-259 | the cascaded chain passes the validator if and only if the input has one kind and a proper range on top |
| `Policy.ValidChainsKept` | crates/rustbase-core/src/config.rs:204-259 | no change is logged if and only if the chain was valid, and then it is returned as it was |
| `Policy.CascadeIsIdempotent` | crates/rustbase-core/src/config.rs:227-259 | cascading twice gives the same chain on every input, and logs nothing the second time exactly on regular chains |
| `Policy.ReplayGivesOutput` | crates/rustbase-core/src/config.rs:184-193 | replaying the change list on the input gives the output, for distinct level names |
| `Policy.ChangesTell` | crates/rustbase-core/src/config.rs:227-259 | the change list names exactly the levels that their fitted parent does not allow, top down, each with the value before and after |
| `Policy.EnumSetsIntersect` | crates/rustbase-core/src/config.rs:153-161 | level k of a chain of sets becomes the intersection of levels 0 to k |
| `Policy.RangesIntersectExactly` | crates/rustbase-core/src/config.rs:83-97 | below a proper range, level k becomes the intersection of levels 0 to k if and only if they overlap |
| `PolicyEngine.PolicyTables.CascadeOneApp` | crates/rustbase-db/src/policy_engine.rs:137-165 | one app's stored value is kept if allowed, else replaced by the clamped one with one outcome |
| `PolicyEngine.PolicyTables.CascadeRealmToApps` | crates/rustbase-db/src/policy_engine.rs:125-168 | every registered app's stored value is fitted to the bound, one outcome per change in listing order, nothing else touched |
| `PolicyEngine.PolicyTables.CascadeOneRealm` | crates/rustbase-db/src/policy_engine.rs:51-120 | one workspace is fitted to master and its apps to the workspace's value after that, or to master if it has none |
| `PolicyEngine.PolicyTables.CascadeMasterToRealmsAndApps` | crates/rustbase-db/src/policy_engine.rs:37-123 | the nested sweep yields the pointwise swept store and the outcomes computed from the store before the sweep, skipping the reserved workspace |
| `PolicySweep.SweepIsCascade` | crates/rustbase-db/src/policy_engine.rs:37-123 | on every path from master to a registered workspace or app, the values left by the sweep are the pure cascade of the levels stored on that path |
| `PolicySweep.OutcomesAreTheWrites` | crates/rustbase-db/src/policy_engine.rs:75-81 | performing the reported outcomes in order, and nothing else, takes the old store to the new one |
| `PolicySweep.SweepQuiet` | crates/rustbase-db/src/policy_engine.rs:17-18 | a sweep reports nothing if and only if every path it visits is already valid |
| `PolicySweep.SecondSweepIsSilent` | crates/rustbase-db/src/policy_engine.rs:17-18 | a second sweep reports nothing if and only if every swept path had one kind and a proper range on top |
| `PolicyRuns.HandleSystemPut` | crates/rustbase-api/src/policies.rs:89-127 | stores the master value, then sweeps; the answer lists the sweep's outcomes |
| `PolicyRuns.HandleSystemDelete` | crates/rustbase-api/src/policies.rs:129-155 | removes the master value or answers not found, nothing else changed |
| `PolicyRuns.HandleWorkspacePut` | crates/rustbase-api/src/policies.rs:204-252 | unknown workspace and violated chain change nothing; otherwise the value is stored and the workspace's apps are swept |
| `PolicyRuns.HandleWorkspaceDelete` | crates/rustbase-api/src/policies.rs:254-285 | removes the workspace value without a sweep, or answers not found |
| `PolicyRuns.HandleAppPut` | crates/rustbase-api/src/policies.rs:326-380 | validates the whole master, workspace, app chain before storing the app value |
| `PolicyRuns.HandleAppDelete` | crates/rustbase-api/src/policies.rs:382-409 | removes the app value or says what is missing |
| `PolicyAnswers.SystemDeleteAnswers` | crates/rustbase-api/src/policies.rs:129-155 | a master value is deleted exactly when it is stored; afterwards its key is absent and every other value is as before |
| `PolicyAnswers.WorkspaceDeleteAnswers` | crates/rustbase-api/src/policies.rs:254-285 | likewise for a workspace value, exactly when the workspace is registered too; every other answer changes nothing |
| `PolicyAnswers.AppDeleteAnswers` | crates/rustbase-api/src/policies.rs:382-409 | likewise for an app value |
| `PolicyAnswers.SystemPutAnswers` | crates/rustbase-api/src/policies.rs:89-127 | a master put leaves exactly the value under its key and every stored value of the field below it fitted to what then stands above, and changes nothing else |
| `PolicyAnswers.WorkspacePutAnswers` | crates/rustbase-api/src/policies.rs:204-252 | accepted exactly when the workspace is registered and master allows the value; then exactly that is stored and the apps are held to it; otherwise nothing changes and the violation names both values |
| `PolicyAnswers.AppPutAnswers` | crates/rustbase-api/src/policies.rs:326-380 | accepted exactly when the app is registered and the stored chain with the value below it is valid; then exactly that is stored; otherwise nothing changes and the violation names the offending pair |
| `PolicyAnswers.OutcomesTell` | crates/rustbase-db/src/policy_engine.rs:37-123 | the outcomes are exactly the values that their bound did not allow, with the value before and after, workspace by workspace in listing order and each before its apps |
| `PolicyAnswers.PutsReport` | crates/rustbase-api/src/policies.rs:107-126 | a master put answers the outcomes of its sweep, and a workspace put those of its apps |
| `PolicyRuns.SystemPutHeals` | crates/rustbase-api/src/policies.rs:89-127 | setting a master value makes its field fit everywhere, whatever was stored before |
| `PolicyRuns.StepKeepsInv` | crates/rustbase-api/src/policies.rs:89-409 | one request keeps every stored value allowed by its nearest stored ancestor if and only if it does not delete an open workspace toggle that hides an app contradicting master's lock |
| `PolicyRuns.PolicyRunInvariant` | crates/rustbase-api/src/policies.rs:89-409 | the invariant holds in every state of a run if and only if every workspace deletion in it is safe in that sense |
| `PolicyRuns.OtherKindsAlwaysSafe` | crates/rustbase-api/src/policies.rs:254-285 | so it holds over every run that deletes no toggle from a workspace: always for ranges, sets and free values |
| `PolicyRuns.DeletionCanBreakToggle` | crates/rustbase-api/src/policies.rs:254-285 | four ordinary requests end in an app value that master's lock forbids, the invariant holding until the deletion |
| `PolicyAncestors.DeepIsNoEvasion` | crates/rustbase-core/src/config.rs:104-107 | given the nearest ancestors, every stored ancestor allows a value if and only if no app chooses against a lock of master's through an open workspace |
| `PolicyAncestors.StepKeepsDeepInv` | crates/rustbase-api/src/policies.rs:89-409 | one request keeps every value allowed by all its stored ancestors if and only if it neither sets a lock over such an app nor puts one; deletions always keep it |
| `PolicyAncestors.AncestorInvariant` | crates/rustbase-api/src/policies.rs:89-409 | so over whole runs, exactly on the runs without such a request |
| `PolicyAncestors.LocksCanBeEvaded` | crates/rustbase-api/src/policies.rs:344-356 | three accepted requests store an app value that master's lock forbids, although children of a lock must use its value |
| `Schemas.ValidateSchema` | crates/rustbase-db/src/collections.rs:306-345 | accepts exactly the schemas with a valid id and valid, unreserved, distinct field names; otherwise reports the first bad one |
| `DocumentAnswers.FieldErrorTells` | crates/rustbase-db/src/collections.rs:306-345 | of a bad field is reported, in this order: a name that is not a lower-case identifier of 2 to 50 characters, one of the three names that every row has, a name used before |
| `DocumentDatabase.Database.HandleCreateCollection` | crates/rustbase-db/src/collections.rs:50-98 | refuses bad, reserved and existing ids; otherwise creates the table with one column per field, NOT NULL and UNIQUE as declared, and registers the schema |
| `DocumentDatabase.Database.HandlePatchCollection` | crates/rustbase-db/src/collections.rs:161-263 | refuses in the source's order (schema, missing, kind, column type, drop without force, a unique column added or dropped), else alters the table and then the registered schema |
| `DocumentDatabase.Database.Alter` | crates/rustbase-db/src/collections.rs:221-239 | ADD COLUMN per added field, then DROP COLUMN per dropped one, one statement at a time |
| `DocumentDatabase.Database.HandleDeleteCollection` | crates/rustbase-db/src/collections.rs:125-142 | refuses a bad name, else drops the table and the registration of a registered collection |
| `DocumentDatabase.Database.HandleCreateRecord` | crates/rustbase-db/src/records.rs:49-84 | inserts one encoded row unless the id is taken, a NOT NULL column would be null or a UNIQUE one would repeat, and echoes the given fields |
| `DocumentDatabase.Database.HandleUpdateRecord` | crates/rustbase-db/src/records.rs:192-226 | overlays only fields that are in both patch and schema unless a constraint refuses the result, then reads the row back |
| `DocumentDatabase.Database.HandleDeleteRecord` | crates/rustbase-db/src/records.rs:228-238 | removes the row or answers not found |
| `DocumentDatabase.Database.HandleFindRecord` | crates/rustbase-db/src/records.rs:86-93 | decodes the row under the stored schema, changing nothing |
| `DocumentDatabase.Database.RowToRecord` | crates/rustbase-db/src/records.rs:282-304 | the loop decodes one value per schema field |
| `DocumentAnswers.CreateAnswers` | crates/rustbase-db/src/collections.rs:50-98 | a collection is created exactly when its schema is sound and its id neither one of the sixteen system tables nor in use; then its table is empty with the declared columns; otherwise nothing changes |
| `DocumentAnswers.PatchAnswers` | crates/rustbase-db/src/collections.rs:161-263 | the exact answer to every patch: a changed kind, a changed column class, a field left out without force and a unique column moved are refused in this order, and a refused patch changes nothing |
| `DocumentAnswers.PatchReforms` | crates/rustbase-db/src/collections.rs:221-263 | an accepted patch keeps every row with its times, every kept column and cell, adds nullable empty columns, removes the rest, and touches no other collection |
| `DocumentAnswers.DeleteCollectionAnswers` | crates/rustbase-db/src/collections.rs:125-142 | a collection is deleted exactly when its name is plain and it is registered, and only it |
| `DocumentAnswers.CreatedIsFound` | crates/rustbase-db/src/records.rs:49-84 | a created record was not there before and is found with one value per field, each as the field kind shows it; no other find changes |
| `DocumentAnswers.UpdatedIsFound` | crates/rustbase-db/src/records.rs:192-226 | an updated record keeps its creation time and the fields the patch does not name, and is answered as it is then found; no other find changes |
| `DocumentAnswers.DeletedIsGone` | crates/rustbase-db/src/records.rs:228-238 | a record is deleted exactly when it is found, and is not found afterwards; no other find changes |
| `DocumentAnswers.ValuesSurvive` | crates/rustbase-db/src/collections.rs:212-217 | over every run a stored value outlasts all patches that are not forced: while record and collection are not deleted and the field is not set, the field, its cell and the value found stay as they are |
| `DocumentRefinement.CellRoundTrip` | crates/rustbase-db/src/records.rs:246-327 | decoding an encoded value gives the value the document keeps, and the cell is NULL exactly for blank input |
| `DocumentRefinement.LawfulCodecs` | crates/rustbase-db/src/records.rs:256-265 | the laws asked of the JSON codec can be met, also by one that reads every string back |
| `DocumentRefinement.UniqueIsDistinct` | crates/rustbase-db/src/collections.rs:364-373 | UNIQUE refuses a row if and only if another document already shows the same value in that field |
| `DocumentRefinement.RecordRefines` | crates/rustbase-db/src/records.rs:49-93 | creating, updating, deleting and finding a record do to the documents, and answer, what the abstract store says, refused blanks and duplicates included |
| `DocumentRefinement.PatchRefines` | crates/rustbase-db/src/collections.rs:161-263 | a patch projects dropped fields away and adds nulls for new ones if and only if no stored text sits under a kept field that turns from text to JSON or back |
| `DocumentRuns.StepRefines` | crates/rustbase-db/src/collections.rs:50-263 | every request answers as the abstract store, keeps the table invariant, and matches its documents if and only if it re-reads no stored text |
| `DocumentRuns.StoreRefinesDocuments` | crates/rustbase-db/src/records.rs:49-93 | over every run the tables hold the abstract documents at all times if and only if no accepted patch re-reads stored text |
| `DocumentRuns.AnswersAgree` | crates/rustbase-db/src/records.rs:86-93 | with the types of kept fields kept and no patch failing midway, every answer of a run, each find and each constraint failure included, is the abstract store's answer |
| `DocumentRuns.UniqueStaysUnique` | crates/rustbase-db/src/collections.rs:364-373 | over such a run no two documents ever share a value in a field declared unique |
| `DocumentRuns.EchoIsExact` | crates/rustbase-db/src/records.rs:77-83 | the record echoed on creation is the one later found if and only if its keys are the schema's and every value is well typed |
| `DocumentRuns.RetypingLosesText` | crates/rustbase-db/src/collections.rs:265-269 | for every collection and text field name: create the collection, store a text that is not JSON, patch the field to JSON without force; the text is found before the patch and null after it |
| `EmailOtp.Otps.IssueCode` | crates/rustbase-db/src/email_otps.rs:45-80 | one transaction: every open row of the address is consumed, then one open row is appended |
| `EmailOtp.Otps.ConsumeRead` | crates/rustbase-db/src/email_otps.rs:84-131 | finds the newest open row of the address and decides expired, right or wrong from what it saw |
| `EmailOtp.Otps.ConsumeWrite` | crates/rustbase-db/src/email_otps.rs:124-168 | only the successful update is guarded; a wrong guess writes the counter it saw plus one and consumes the row from the fifth on |
| `EmailOtp.IssuingOpens` | crates/rustbase-db/src/email_otps.rs:45-80 | issuing appends one open row that expires at now plus the ttl, closes the open rows of the address and changes no other |
| `EmailOtp.UndisturbedConsume` | crates/rustbase-db/src/email_otps.rs:117-169 | with one open row, a consume succeeds if and only if the guess is its code and now is before its expiry, is told expired if and only if it is not, and otherwise wrong with the attempts left, or locked at the fifth; the row afterwards is as the answer says |
| `EmailOtp.NothingToConsume` | crates/rustbase-db/src/email_otps.rs:117-120 | without an open row the answer is unknown and nothing changes |
| `EmailOtp.CurrentIsNewest` | crates/rustbase-db/src/email_otps.rs:84-95 | the row read is an open row of the address and none is newer |
| `EmailOtp.RaceHasOneWinner` | crates/rustbase-db/src/email_otps.rs:131-145 | of two consumers that read the right code in time, the first to write succeeds and the second is told unknown |
| `EmailOtp.ClosedHasCause` | crates/rustbase-db/src/email_otps.rs:40-169 | in every run an open row closes only by an issue for its address or by a success, expiry or lock answered on it |
| `EmailOtp.IssuedCodeWorks` | crates/rustbase-db/src/email_otps.rs:131-145 | in every run a code whose row is still open is accepted, undisturbed, if and only if it is the issued one and now is before issue plus ttl |
| `EmailOtp.SingleInFlight` | crates/rustbase-db/src/email_otps.rs:14-16 | at every moment of every interleaving at most one code is open per address |
| `EmailOtp.RunGrows` | crates/rustbase-db/src/email_otps.rs:45-169 | rows keep their code, address and expiry, and a consumed row never becomes open again |
| `EmailOtp.SuccessIsUnique` | crates/rustbase-db/src/email_otps.rs:131-145 | however consumers interleave, each row yields at most one success |
| `EmailOtp.SupersededNeverSucceeds` | crates/rustbase-db/src/email_otps.rs:40-57 | no row yields a success once a later code was issued for its address, even for a consumer that had already read it |
| `EmailOtp.SuccessMeansRightCode` | crates/rustbase-db/src/email_otps.rs:117-145 | a success was for the row's own code, presented before its expiry, on a row still open |
| `EmailOtp.LedgerExactIffFresh` | crates/rustbase-db/src/email_otps.rs:146-168 | the counters equal the wrong guesses answered throughout a run if and only if no guess is charged from a counter value that has moved on |
| `EmailOtp.FreshBudget` | crates/rustbase-db/src/email_otps.rs:24-27 | with fresh charges, at most five wrong guesses are answered on a row and after the fifth it never succeeds |
| `EmailOtp.BudgetHolds` | crates/rustbase-db/src/email_otps.rs:24-27 | consumes run one at a time charge fresh, so the budget holds for them |
| `EmailOtp.AnswersCount` | crates/rustbase-db/src/email_otps.rs:104-112 | over every interleaving the attempts reported as left are never zero; with fresh charges they are five minus the wrong guesses answered so far, and exactly the fifth is answered as locked |
| `EmailOtp.OverlapEvadesBudget` | crates/rustbase-db/src/email_otps.rs:146-168 | for every k there is an interleaving in which k wrong guesses are answered and the row is still open |
| `MailQuota.QuotaIsPolicyBound` | crates/rustbase-api/src/mailer.rs:216-228 | the cap read from a range policy is its upper bound if and only if that bound fits 32 bits; a negative bound means no cap |
| `MailQuota.QuotedMailer.Reserve` | crates/rustbase-api/src/mailer.rs:249-265 | bump with 32-bit wrap-around, undone and refused if above the cap |
| `MailQuota.QuotedMailer.Refund` | crates/rustbase-api/src/mailer.rs:269-276 | give one slot back if the counter is positive |
| `MailQuota.QuotaConserved` | crates/rustbase-api/src/mailer.rs:241-280 | over every interleaving each day's counter equals its sends in flight plus delivered, if and only if no counter is bumped past 32 bits |
| `MailQuota.RefundGuardHolds` | crates/rustbase-api/src/mailer.rs:272-276 | the guard of a refund holds as long as no counter has been bumped past 32 bits before it |
| `MailQuota.RefusedExactlyWhenFull` | crates/rustbase-api/src/mailer.rs:249-259 | a send is refused if and only if the day's sends in flight or delivered already fill its quota |
| `MailQuota.UncappedAlwaysPasses` | crates/rustbase-api/src/mailer.rs:260-265 | without a quota every send goes through and is counted |
| `MailQuota.CappedPassesBelow` | crates/rustbase-api/src/mailer.rs:249-259 | with a quota, a send goes through exactly if the counter one further does not exceed it, and only then is counted |
| `MailQuota.EndsExactly` | crates/rustbase-api/src/mailer.rs:267-280 | a delivered send leaves the counters alone; a failed one gives its slot back |
| `MailQuota.CapHolds` | crates/rustbase-api/src/mailer.rs:249-259 | if all sends of a day read quotas of at most q, with q below 2^32 - 1, in flight plus delivered never exceeds q, whatever other days do |
| `MailQuota.TopCapWraps` | crates/rustbase-api/src/mailer.rs:250-253 | of 2^32 sends of a day that all read a quota of 2^32 - 1, every one goes through and the counter ends at zero |
| `OneShot.PasswordResets.Issue` | crates/rustbase-db/src/password_resets.rs:26-51 | inserts an unconsumed row for a new token, or fails on a token already there |
| `OneShot.PasswordResets.ConsumeRead` | crates/rustbase-db/src/password_resets.rs:77-87 | unknown, already consumed and expired are told apart in that order |
| `OneShot.PasswordResets.ConsumeWrite` | crates/rustbase-db/src/password_resets.rs:88-98 | the guarded update changes the row if and only if it is still unconsumed |
| `OneShot.PasswordResets.InvalidateAllForUser` | crates/rustbase-db/src/password_resets.rs:108-118 | consumes exactly the user's unconsumed tokens |
| `OneShot.OAuthStates.Issue` | crates/rustbase-db/src/oauth_states.rs:32-67 | inserts an unconsumed row for a new state with its provider and redirect URI, or fails on a state already there |
| `OneShot.OAuthStates.ConsumeRead` | crates/rustbase-db/src/oauth_states.rs:100-137 | as for reset tokens, with the provider compared before consumption and expiry |
| `OneShot.OAuthStates.ConsumeWrite` | crates/rustbase-db/src/oauth_states.rs:138-148 | the guarded update changes the row if and only if it is still unconsumed |
| `OneShot.WonAtMostOnce` | crates/rustbase-db/src/password_resets.rs:77-102 | over every interleaving of any number of consumers a secret is won at most once |
| `OneShot.NoWinAfterInvalidation` | crates/rustbase-db/src/password_resets.rs:104-118 | nothing issued to a user before an invalidation is won after it, not even by a consumer past its checks |
| `OneShot.WinIsEarned` | crates/rustbase-db/src/oauth_states.rs:128-152 | a win hands out the row's own grant, had not expired when checked, and was asked for by the right provider |
| `OneShot.RefusalChangesNothing` | crates/rustbase-db/src/oauth_states.rs:128-148 | an attempt turned down, for the wrong provider or any other reason, changes no row |
| `OneShot.ReadAnswers` | crates/rustbase-db/src/oauth_states.rs:100-137 | each answer of the checks exactly: unknown, wrong provider, already consumed, expired, in this order; no row changes |
| `OneShot.IssuingInserts` | crates/rustbase-db/src/oauth_states.rs:32-67 | a new secret gets an unspent row as given; one already there is left alone |
| `OneShot.InvalidatingSpends` | crates/rustbase-db/src/password_resets.rs:104-118 | an invalidation spends exactly the user's unspent secrets |
| `OneShot.UndisturbedConsume` | crates/rustbase-db/src/password_resets.rs:77-102 | undisturbed, a consume wins if and only if the secret is known, unspent, unexpired and asked for by the right provider; a win hands out the row's grant and spends that row alone |
| `OneShot.SpentHasCause` | crates/rustbase-db/src/password_resets.rs:77-118 | a spent secret was either won or invalidated through its user |
| `Lockout.LoginAttempts.Check` | crates/rustbase-api/src/security.rs:92-110 | blocks exactly while an enabled policy's lock lies ahead, with the remaining whole seconds, at least one |
| `Lockout.LoginAttempts.NoteFailure` | crates/rustbase-api/src/security.rs:116-150 | the subject's entry alone changes; a running lock is left as it is, an expired one restarts the count |
| `Lockout.LoginAttempts.NoteSuccess` | crates/rustbase-api/src/security.rs:154-156 | forgets the subject and no other |
| `Lockout.PruningIsHarmless` | crates/rustbase-api/src/security.rs:139-140 | pruning at an earlier failure removes nothing that a later window could still see |
| `Lockout.InsideSplits` | crates/rustbase-api/src/security.rs:139-140 | each failure is kept or dropped on its own, in place: kept exactly if later than the start of the window |
| `Lockout.LockoutRefinesHistory` | crates/rustbase-api/src/security.rs:116-156 | over every timed run, each subject's lock and failure list are what its own unpruned history determines: the counted failures inside the window of the latest one |
| `Lockout.WaitExactly` | crates/rustbase-api/src/security.rs:127-149 | a failure is answered with a wait if and only if it meets a running lock or brings the count inside the window to the threshold; the wait is what is left of the lock, all of it for a new one |
| `Lockout.LockEndIsFixed` | crates/rustbase-api/src/security.rs:127-134 | however many failures fall inside a lock, its end does not move and none is counted |
| `Revocation.RevocationSet.Lookup` | crates/rustbase-auth/src/revocation.rs:60-71 | the first step of a check: the answer from the entry read, and whether its time is up so that it is to be removed |
| `Revocation.RevocationSet.Remove` | crates/rustbase-auth/src/revocation.rs:67-69 | the second step: whatever stands under the key by then goes |
| `Revocation.RevocationSet.PurgeExpired` | crates/rustbase-auth/src/revocation.rs:75-78 | keeps exactly the entries younger than the ttl |
| `Revocation.EntriesAreLatest` | crates/rustbase-auth/src/revocation.rs:54-78 | over every interleaving an entry that is there is the latest revocation of its key |
| `Revocation.AgreementExactly` | crates/rustbase-auth/src/revocation.rs:54-78 | while entries outlive tokens, the set agrees throughout a timed interleaving with one that never forgets, on every token still accepted, if and only if no revocation whose tokens are still alive falls between a lookup that found its key expired and the removal that follows |
| `Revocation.RevocationCanBeLost` | crates/rustbase-auth/src/revocation.rs:60-72 | for every ttl and lifetime there is such a run: a second revocation is removed with the first, and the token passes |
| `Revocation.ForgettingIsHarmless` | crates/rustbase-auth/src/revocation.rs:3-7 | over all timed runs with purges in which no revocation falls between a lookup and its removal, agreement holds if and only if lifetime plus leeway is below the ttl |
| `Revocation.LazyForgettingIsHarmless` | crates/rustbase-auth/src/revocation.rs:60-72 | over such runs with lookups alone, if and only if lifetime plus leeway is at most the ttl |
| `Revocation.DefaultsForgetTooSoon` | crates/rustbase-auth/src/revocation.rs:89-94 | the shipped defaults, 15 minutes each with 60 seconds of leeway, do not meet the condition |
| `Pages.PagesPartition` | crates/rustbase-db/src/records.rs:101-147 | pages 1 to the last, one after the other, are the ordered result: every row exactly once |
| `Pages.PageSizes` | crates/rustbase-api/src/records.rs:71-83 | a page, zero being read as one, is empty if and only if it lies beyond the last one, and full before it |
| `Pages.PageHolds` | crates/rustbase-db/src/records.rs:101-147 | page p of a size from 1 to 200 holds exactly the rows from (p - 1) times the size on |
| `Pages.NearestPageSize` | crates/rustbase-db/src/records.rs:95-103 | the size used is the one from 1 to 200 nearest to the size asked for |
| `Pages.OffsetFits` | crates/rustbase-db/src/records.rs:101-103 | the offset of any 32-bit request fits a signed 64-bit integer |

## Left out

- FilterParser.JsonValue: number literals are an optional minus and digits with an optional fraction, as the grammar comment says; exponents, a leading `+` or `.`, `inf`, `nan` and the rounding of 64-bit floats are not modelled.
- FilterParser.Comparison: the six comparison variants of the tree are one constructor carrying the operator; repetition followed by a fold is an accumulating function, and the two character runs of an identifier are one.
- FilterPrinter.ParseUndoesPrint: `In` has no syntax and strings have no escapes, so neither is printable.
- RuleTemplate.Substitute: templates are ASCII text, since the source copies byte by byte.
- ComparisonMeaning.ComparisonsMean: the source compares numbers as 64-bit floats; the rounding of integers beyond 2^53 is not modelled.
- SqlSemantics.CompareAgrees: integers beyond 64 bits and the rounding of floats are not modelled; how SQLite writes a number as text, and which texts it reads as numbers, are parameters.
- SqlSemantics.MeaningsAgree: sufficient for whole filters, exact only for single comparisons and patterns, because differences in two branches can cancel out; for `In` it asks every listed value to be agreeable.
- SqlSemantics.EchoAgrees: claimed for the echoes that are the stored document, whose exact condition is `DocumentRuns.EchoIsExact`.
- SqlSemantics.PatternFormsAgree: `LIKE` is read as case-sensitive; SQLite folds ASCII case.
- Policy.FitLaws: the 64-bit width of range bounds is not modelled; no arithmetic is done on them.
- PolicyEngine.PolicyTables.CascadeOneApp: the audit row that accompanies a clamp is not modelled; the outcome carries the same values.
- PolicyEngine.PolicyTables.CascadeRealmToApps: audit rows are not modelled.
- PolicyEngine.PolicyTables.CascadeOneRealm: audit rows are not modelled, and the source's inner loop over apps is the shared app sweep.
- PolicyEngine.PolicyTables.CascadeMasterToRealmsAndApps: audit rows and timestamps are not modelled.
- PolicyRuns.PolicyRunInvariant: the registered workspaces and apps are fixed during a run, requests are one at a time, each field has one kind with proper ranges, and the reserved workspace, which the sweep skips, is outside the invariant.
- PolicyAncestors.AncestorInvariant: the same setting.
- PolicyRuns.HandleSystemPut: authorisation of the caller and the audit row are not modelled.
- PolicyRuns.HandleSystemDelete: authorisation of the caller and the audit row are not modelled.
- PolicyRuns.HandleWorkspacePut: authorisation of the caller and the audit row are not modelled.
- PolicyRuns.HandleWorkspaceDelete: authorisation of the caller and the audit row are not modelled.
- PolicyRuns.HandleAppPut: authorisation of the caller and the audit row are not modelled.
- PolicyRuns.HandleAppDelete: authorisation of the caller and the audit row are not modelled.
- DocumentDatabase.Database.HandlePatchCollection: SQLite refuses to add or drop a UNIQUE column; the model then answers an error and changes nothing, while the code, unless that statement is the first, has already altered other columns of the same patch. The type check looks at fields in schema order, which only affects the wording of the error.
- DocumentAnswers.PatchAnswers: the same; a patch refused for a unique column changes nothing in the model, where the code may already have added columns or, if forced, dropped some.
- DocumentAnswers.CreateAnswers: table names that SQLite itself reserves are not modelled.
- DocumentAnswers.DeleteCollectionAnswers: the source's unconditional DROP TABLE on an unregistered name is not modelled.
- DocumentDatabase.Database.Alter: reached only by patches whose statements all succeed.
- DocumentRuns.StoreRefinesDocuments: over runs in which no patch fails after some of its statements, which happens only where it adds or drops a unique column.
- DocumentRuns.AnswersAgree: over the same runs.
- DocumentRuns.UniqueStaysUnique: over the same runs.
- FilterColumns.AcceptedFiltersFitTable: over the same runs.
- SqlSemantics.QueryAgreesWithFind: over the same runs.
- DocumentDatabase.Database.HandleDeleteCollection: a valid name without a registration is answered with not found and changes nothing; the source's unconditional DROP TABLE on such a name is not modelled.
- DocumentDatabase.Database.HandleCreateCollection: table names that SQLite itself reserves, and the rollback of a failed registration, are not modelled.
- DocumentRefinement.CellRoundTrip: rounding to 64-bit floats is not modelled; integers stored in a number field come back as floats of the same value, and a float inside a JSON field is taken to be read back as one with the same text.
- EmailOtp.FreshBudget: claimed for fresh charges; `EmailOtp.LedgerExactIffFresh` says exactly when the counters are exact, and overlapping guesses are not.
- MailQuota.QuotaConserved: per mailer instance, without cancellation of a send in progress.
- OneShot.OAuthStates.Issue: the stored code verifier is not modelled.
- OneShot.OAuthStates.ConsumeRead: the stored code verifier and its encryption are not modelled.
- Lockout.LockoutRefinesHistory: one enabled policy throughout, time not running backwards, and fewer than 2^32 failures in a window.
- Pages.PagesPartition: the result is fixed and totally ordered; rows with equal creation time, which the query leaves unordered, are not.
- `email_verifications.rs` and `mfa_challenges.rs` have the consume shape of password resets and would repeat the same proof.
- The hook runtime, cron, JWT signing, password hashing, encryption at rest, HTTP routing, object storage, the pool managers and the realtime broker are not part of this model.
