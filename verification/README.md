# LDAPLite: search, membership, import and wire codec, verified

This project models the parts of LDAPLite in which one value takes several routes to the same answer, and proves that
the routes agree.

- **Search** (`Text`, `Dn`, `DnParts`, `Filters`, `FilterParser`, `FilterSerializer`, `FilterRoundTrip`,
  `SubstringMeaning`, `SqlLike`, `Sql`, `SqlCompiler`, `SqlMeaning`, `Scope`, `SearchQuery`, `SearchScan`,
  `SearchRoutes`, `Search`, `SearchLimits`, `SearchMeaning`). A filter received on the wire is serialized, parsed, and
  answered by one of four routes: a walk down from a group, a look-up of one attribute value, a compiled SQL
  condition, or matching in memory. `Search.SearchEntries` has one specification for all of them and for every filter:
  exactly the entries in scope whose full entry, with `memberOf` populated, matches `Answered(f)`. That is `f` itself
  but in two cases, a hidden empty `memberOf` test and tests on times in a compiled filter, and `SearchLimits` says
  exactly when these matter. `SearchMeaning.SatisfiesExact` says what a filter means straight from the tables, with no
  entry built and texts compared character by character. SQL is a token sequence with its own parser (NOT over AND
  over OR, numbered parameters) and evaluator, so the parentheses, the argument order and the LIKE escapes that the
  compiler emits matter.
- **Nested groups** (`Recursion`, `Membership`). The recursive queries are worklists of (origin, node, depth, path
  text) rows. On every graph, with or without cycles, they terminate and find exactly what a chain of 1 to 101
  memberships reaches, and walking up and walking down find the same pairs.
- **The store** (`Tables`, `Directory`, `DirectoryInvariant`, `StoreChecks`, `StoredValues`). `CreateEntry` and
  `UpdateEntry` are methods of a class over its tables, with rollback. Every run of successful and failed steps keeps
  the core of one invariant and never changes a stable id; it keeps the whole invariant, from which the search theorem
  starts, if and only if its updates are safe. Which entries are created, and with which rows and passwords, is said
  name by name.
- **LDIF** (`Records`, `Base64`, `LdifWriter`, `LdifParser`, `LdifLines`, `LdifRoundTrip`, `LdifBreaks`,
  `ImportOrder`, `ImportPlan`, `ImportApply`, `ImportFit`, `ImportResult`, `ImportPasswords`, `ImportAccepted`). What
  is written is read back, whatever its lines end in, and of any text it is said which lines make up which record (RFC
  2849; base64 is section 4 of RFC 4648). A batch is planned if and only if it is acceptable and nothing in it waits,
  in a circle, for itself; a plan is carried out without any failure if and only if its parents and members are named
  as they are stored; and the store then holds the old entries plus exactly the batch (`ImportResult.ImportRecords`).
- **BER** (`Ber`, `BerIntegers`, `BerBooleans`). Reading and writing packets are mutually inverse (sections 8.1 and
  8.3 of X.690, restricted by section 5.1 of RFC 4511), and the in-place pass over booleans does to the decoded tree
  exactly what it says.
- **Examples** (`Examples`). For each promise that does not hold, an input on which it fails.

Loops are methods over the variables, arrays or fields the program changes, each tied to a function of its input; the
properties are lemmas about those functions. A character of a text is an ASCII character, or the private marker U+E000
of the filter parser; in LDIF a character below 256 is a byte.

## What turned out not to hold, and exactly when it does

- A filter survives being serialized and parsed if and only if no And or Or in it is empty, its values have no
  surrounding white space and hold none of `>=`, `<=`, `~=` that would be read first, and no substring filter is
  written as a bare `*` or without any `*`. An empty And or Or is not written at all: alone it is read as
  `(objectClass=*)`, after `!` the text no longer parses (`FilterRoundTrip.RoundTrip`,
  `Examples.EqualityDoesNotSurvive`).
- A substring filter is served as RFC 4511 means it if and only if its first piece is an initial one, as no leading
  `*` is written otherwise, and its text survives (`SubstringMeaning.SubstringsServedAsMeant`,
  `Examples.InnerPieceMissed`).
- A conjunction that takes the group shortcut is answered rightly on every store if and only if no empty `memberOf=`
  test comes before the group's, unless the group's DN has outer space (`SearchLimits.GroupShortcutRight`,
  `Examples.HiddenTestAnswersMembers`).
- Equality, presence and substring tests on timestamps look, when compiled, for attribute rows that never exist. One
  that stands alone is right on every store if and only if no time satisfies it (`SearchLimits.TimeTestRight`): for
  equality, if its value is not a time, for presence never (`TimeEqualityRight`, `TimePresenceWrong`). Inside a
  compiled filter the answer is right on a store if and only if no entry in scope has times the filter notices
  (`SearchLimits.CompiledSearchRight`). Beside a test that does not compile, the same test is right
  (`Examples.TimePresenceFindsNothing`, `RoutesDisagree`, `TimeEqualityFindsNothing`).
- `UpdateEntry` does not compare the class it is given with the stored one; a successful update keeps the store's
  invariant if and only if it gives members to group rows only and, where a group is updated as something else, leaves
  its members as they were (`DirectoryInvariant.UpdateInvariantExact`, `Examples.GroupRowsWithoutGroup`).
- Following parent pointers and comparing DN texts select the same subtree if and only if the search base is not
  strictly above the directory's base (`Scope.ScopesAgreeUnlessAbove`, `Examples.AboveTheDirectory`).
- Splitting a DN, joining the parts and splitting again is stable if and only if trimming left no escaping backslash
  at the end of the first component (`DnParts.SplitStable`, `DnParts.SplitUnstableExample`).
- An accepted import can still fail. It does not if and only if every parent and member is named, outer space
  included, as it is stored or in the batch, and a new base entry has no parent DN (`ImportResult.ImportRecords` with
  `ImportFit.Fits`; `ImportFit.WithBaseFits` and `ImportFit.WithoutBaseFits` for records without outer space,
  `Examples.BaseRecordNotCreated`).
- `Packet.Int` does not extend the sign: below eight bytes it is right exactly when the top bit is clear
  (`BerIntegers.IntIsTwosComplement`, `Examples.MinusOneInOneByte`); negative integers are always written in eight
  bytes, which is shortest exactly below minus two to the 55th (`BerIntegers.NegativeTakesEight`).

## Model

| member | source | states |
|---|---|---|
| Text.EqualFoldExact | internal/schema/filter.go:335-344 | two texts are equal ignoring case if and only if they have the same length and at each place the same letter, upper or lower |
| Text.TrimSpaceExact | internal/ldapdn/dn.go:21-24 | trimming cuts off both ends all of tab, line feed, vertical tab, form feed, carriage return and space, and nothing else |
| Dn.FirstUnescaped | internal/ldapdn/dn.go:80-93 | the least position of a target that no unescaped backslash precedes, or -1 if there is none |
| Dn.ScanFirstUnescaped | internal/ldapdn/dn.go:80-93 | the loop with its escape flag finds that position |
| Dn.Parent | internal/ldapdn/dn.go:21-24 | a parent is trimmed and strictly shorter unless the DN is empty, so climbing ends |
| Dn.ScanWithinBase | internal/ldapdn/dn.go:55-70 | the climbing loop decides ancestry |
| Dn.WithinBaseIsSuffix | internal/ldapdn/dn.go:55-70 | a DN is within a base if and only if, ignoring case and outer space, the base equals it or what follows one of its unescaped commas |
| Dn.ParentLower | internal/ldapdn/dn.go:21-24 | taking the parent commutes with lowering case |
| Dn.WithinBaseTransitive | internal/ldapdn/dn.go:55-70 | ancestry is transitive |
| Dn.WithinBaseAntisymmetric | internal/ldapdn/dn.go:55-70 | two DNs within each other are equal |
| Dn.AncestorIsShorter | internal/ldapdn/dn.go:55-70 | a proper ancestor is shorter |
| Dn.ParentNIsAncestor | internal/ldapdn/dn.go:55-70 | the n-th parent, when not empty, is an ancestor |
| Dn.AncestorIsParentN | internal/ldapdn/dn.go:55-70 | every ancestor is the n-th parent for some n |
| DnParts.SplitOfJoined | internal/ldapdn/dn.go:6-12 | a component and a parent put together with a comma are split into the same two |
| DnParts.SplitRdnOfJoined | internal/ldapdn/dn.go:36-47 | a name and a value put together with `=` are split into the same two |
| DnParts.RdnHasNoCut | internal/ldapdn/dn.go:6-18 | the first component is trimmed and has no unescaped comma |
| DnParts.SplitStable | internal/ldapdn/dn.go:6-12 | splitting again after joining gives the same parts if and only if the component does not end in an escaping backslash |
| DnParts.SplitUnstableExample | internal/ldapdn/dn.go:6-12 | an escaped space before the comma is such a case |
| DnParts.SplitRdnExact | internal/ldapdn/dn.go:36-47 | a component is split if and only if it has an unescaped `=` with more than white space before it, and there |
| Directory.CollectInOrder | internal/store/sqlite_helpers.go:28-52 | the attribute map of an entry holds, under each lowered name, the values of its rows in row order |
| Filters.ScanSubstring | internal/schema/filter.go:248-293 | the loop over the shrinking value decides the greedy match |
| Filters.GreedyFindsGaps | internal/schema/filter.go:248-293 | a greedy match yields gaps that put the value together |
| Filters.GapsSatisfyGreedy | internal/schema/filter.go:248-293 | every arrangement of gaps and pieces is found by the greedy match |
| Filters.MatchSubstringExact | internal/schema/filter.go:248-297 | a value matches a pattern with a wildcard if and only if it is first piece, gaps and middle pieces in order, last piece, ignoring case |
| SqlLike.BuildLike | internal/schema/filter_compiler.go:230-246 | the builder loop writes the translated pattern |
| SqlLike.LikeLiteral | internal/schema/filter_compiler.go:230-246 | a translated piece matches exactly its literal text, with `%`, `_`, `\` and marked asterisks standing for themselves |
| SqlLike.LikeIsParts | internal/schema/filter_compiler.go:230-246 | LIKE on a translated pattern is matching the pieces in order |
| SqlLike.PartsMatchSplits | internal/schema/filter_compiler.go:230-246 | which is splitting into first piece, gaps and middle pieces, last piece |
| SqlLike.LikeAgreesWithMatchSubstring | internal/schema/filter_compiler.go:207-246 | for every value and every pattern with a wildcard, SQL LIKE and the in-memory matcher agree |
| SqlLike.WildcardsOfLike | internal/schema/filter_compiler.go:230-246 | unescaped `%` and `_` would stand for any text and any character; translated they stand for themselves |
| SqlLike.LikeIgnoresCase | internal/schema/filter_compiler.go:207-228 | LIKE takes no notice of the case of the value |
| SqlCompiler.CompileMany | internal/schema/filter_compiler.go:249-288 | the loops that append clauses and arguments join them as specified, or fail with the first failing sub-filter |
| SqlCompiler.CompileFilter | internal/schema/filter_compiler.go:18-43 | the compiler, with its loops, computes the specified clause |
| SqlCompiler.ClauseParses | internal/schema/filter_compiler.go:249-302 | read under SQL precedence, before any closing text, every emitted clause is the intended expression with its parameters numbered in order |
| SqlCompiler.ClauseParams | internal/schema/filter_compiler.go:167-302 | every clause has as many `?` as arguments |
| SqlCompiler.CompilesExact | internal/schema/filter_compiler.go:132-164 | a filter compiles if and only if every part of it, at any depth, is a test SQL can make, a conjunction, a disjunction or the negation of one filter |
| SqlMeaning.SqlDateTimeOrder | internal/schema/filter_compiler.go:361-381 | the punctuated SQL text of a time sorts as its LDAP digits do |
| Sql.SqlDateTimeShape | internal/schema/filter_compiler.go:361-381 | the SQL text of a time is YYYY-MM-DD hh:mm:ss |
| SqlMeaning.StoredValues | internal/schema/filter.go:394-414 | the values a filter sees are those of the entry's rows with that name ignoring case |
| SqlMeaning.TimestampMeans | internal/schema/filter_compiler.go:306-356 | an ordering clause on a timestamp gives what Matches gives on the entry |
| SqlMeaning.ClassPresence | internal/schema/filter_compiler.go:188-203 | on any row at all, a presence clause on objectClass says that the class is not empty |
| SqlMeaning.TimeTestFindsNothing | internal/schema/filter_compiler.go:167-228 | an equality, presence or substring clause on a timestamp holds on no row |
| SqlMeaning.LeafMeans | internal/schema/filter_compiler.go:167-228 | every other compiled equality, presence, substring and ordering clause gives what Matches gives on the entry; a test on a time gives false |
| SqlMeaning.BlindIsSame | internal/schema/filter_compiler.go:18-43 | a filter is its own blinded form if and only if it has no such test on a time at any depth |
| SqlMeaning.IntendedMeans | internal/schema/filter_compiler.go:18-43 | for every nested filter that compiles, the clause evaluated on a row gives what Matches gives on its entry for the filter with its tests on times blinded |
| FilterParser.DecodeValue | internal/schema/filter.go:216-235 | the loop decodes `\xx` pairs, marking escaped asterisks on request |
| FilterParser.ScanWildcard | internal/schema/filter.go:203-214 | the loop finds an asterisk outside escapes if and only if there is one |
| FilterParser.ParseMany | internal/schema/filter.go:57-201 | the loop over sub-filters collects what the list specification says, and stops where it stops |
| FilterParser.ParseRecursive | internal/schema/filter.go:57-201 | the position-advancing parser computes the specified filter and end position |
| FilterParser.FullyEscapedDecodes | internal/schema/filter.go:216-246 | a value with every byte escaped, in upper or lower case digits, decodes to the value and has no wildcard |
| FilterSerializer.BuildEscaped | internal/server/search.go:348-367 | the builder loop escapes every special character |
| FilterSerializer.BuildBody | internal/server/search.go:277-346 | the substring loop writes the pieces with their asterisks |
| FilterSerializer.BuildFilter | internal/server/search.go:277-346 | the recursive serializer with its loops writes the specified text |
| FilterSerializer.DecodeEscape | internal/server/search.go:348-367 | decoding undoes escaping, with asterisks marked if they are to be preserved |
| FilterSerializer.DecodeBody | internal/server/search.go:277-346 | decoding the text of substring pieces gives their pattern |
| FilterSerializer.BodyWildcard | internal/server/search.go:277-346 | the text of the pieces has a wildcard if and only if one of them is not final |
| FilterSerializer.EscapeIsSafe | internal/server/search.go:348-367 | an escaped value holds no `*`, no parenthesis and no NUL, and a backslash only before two hexadecimal digits |
| FilterSerializer.EscapeKeepsPlain | internal/server/search.go:348-367 | a value without these characters is written as itself |
| FilterRoundTrip.EqualsReads | internal/schema/filter.go:57-201 | which operator wins in an item with `=`, and what its trimmed value then makes of it |
| FilterRoundTrip.LeafReads | internal/schema/filter.go:57-201 | every serialized leaf parses, and gives back its image if and only if its value survives |
| FilterRoundTrip.ParsesAt | internal/schema/filter.go:57-201 | the text of any filter parses wherever it stands, consuming exactly its own characters, unless it is empty or has nothing after some `!` |
| FilterRoundTrip.FailsAt | internal/schema/filter.go:57-201 | where an empty And or Or follows a `!`, the text does not parse wherever it stands |
| FilterRoundTrip.RoundTrip | internal/server/search.go:277-367 | serializing and parsing consumes the whole text, and yields the image of the filter if and only if all its values survive and no And or Or is empty; otherwise what it yields, or that it fails |
| FilterRoundTrip.SpacesAroundFilter | internal/schema/filter.go:38-55 | white space around a filter is ignored |
| FilterRoundTrip.FilterNeedsParentheses | internal/schema/filter.go:38-55 | a text that is not in parentheses, white space apart, is no filter |
| FilterRoundTrip.SpacesAroundAttribute | internal/schema/filter.go:151-200 | so is white space around an attribute description, before every operator |
| SubstringMeaning.PatternMeans | internal/schema/filter.go:248-293 | a pattern whose first piece has a wildcard after it matches the values that start with that piece and hold the others in order |
| SubstringMeaning.SubstringsServedAsMeant | internal/server/search.go:277-346 | a substring filter that went over text tests its pieces in order, on every value, if and only if the first is an initial one and the text survives |
| SubstringMeaning.OuterSpaceFails | internal/schema/filter.go:57-201 | a body with outer space is read as a test that some value passes without holding the pieces |
| Recursion.PathTextMembership | internal/store/sqlite_membership.go:104-135 | the delimited path text contains an id if and only if the path does |
| Recursion.RunRecursive | internal/store/sqlite_membership.go:104-135 | the recursion terminates and reports exactly the rows of simple paths within the depth bound |
| Recursion.CutLoops | internal/store/sqlite_membership.go:104-135 | any chain can be cut to one with the same ends and no repeated node, no longer than before |
| Recursion.FindsExactlyReachable | internal/store/sqlite_membership.go:104-135 | a node is found for an origin if and only if a chain of 1 to 101 edges leads to it |
| Recursion.ReachesReversed | internal/store/sqlite_search.go:183-213 | the reversed graph has the same reachable pairs, reversed |
| Membership.IsUserInGroup | internal/store/sqlite_membership.go:104-135 | true if and only if a chain of 1 to 101 memberships leads from the user to the group |
| Membership.GroupDnsFor | internal/store/sqlite_membership.go:145-222 | the DNs for one user, each once: those of the listed groups it is nested in through listed groups |
| Membership.PopulateMemberOf | internal/store/sqlite_membership.go:145-222 | one query for all users gives every entry its own groups, and leaves other entries alone; of users with the same id only the last is filled |
| Membership.WalkRows | internal/store/sqlite_search.go:183-213 | the rows of the downward query with one origin are what its walk reaches, though seeds ignore the class and expansion does not |
| Membership.FindBelow | internal/store/sqlite_search.go:183-213 | on any tables the downward query finds exactly what the named groups reach through groupOfNames entries |
| Membership.UpDownDuality | internal/store/sqlite_search.go:183-213 | where groups own the member rows, an entry is below a group if and only if the group is above the entry, whether or not entries are joined at each step |
| Directory.Store.InsertGenericAttributes | internal/store/sqlite_entries.go:261-276 | adds exactly the values of the attributes that are not server-managed |
| Directory.Store.ResolveMemberIds | internal/store/sqlite_membership.go:53-99 | one query and a map find the id of every member, or report that one is missing |
| Directory.Store.InsertMembers | internal/store/sqlite_membership.go:32-48 | inserts one row for each distinct member id |
| Directory.Store.SyncGroupMembers | internal/store/sqlite_membership.go:12-51 | exactly one row for each distinct resolved member, or no change at all |
| Directory.Store.InsertSpecialized | internal/store/sqlite_entries.go:126-175 | the class-specific checks in their order, and the rows they allow |
| Directory.Store.CreateEntry | internal/store/sqlite_entries.go:64-178 | the first failing check decides the answer; a failure changes nothing, a success adds exactly one entry with its rows |
| Directory.Store.UpdateEntry | internal/store/sqlite_entries.go:187-259 | as for creation; a success keeps the stable id and replaces exactly the rows of one entry |
| DirectoryInvariant.CreateKeepsInvariant | internal/store/sqlite_entries.go:64-178 | creation keeps unique DNs, present parents, clean attribute rows, one stable id each and member rows equal to resolved members |
| DirectoryInvariant.UpdateKeepsInvariant | internal/store/sqlite_entries.go:187-259 | so does an update that gives members to group rows only and keeps those of a group updated as something else |
| DirectoryInvariant.CreateKeepsCore | internal/store/sqlite_entries.go:64-178 | creation keeps the core of the invariant: ids, unique DNs, present parents, clean attribute rows, one stable id each |
| DirectoryInvariant.UpdateKeepsCore | internal/store/sqlite_entries.go:187-259 | so does every update, safe or not |
| DirectoryInvariant.StepInvariantExact | internal/store/sqlite_entries.go:64-259 | a step keeps the whole invariant if and only if it is a creation, fails, or is an update of that kind |
| DirectoryInvariant.UnsafeUpdateBreaks | internal/store/sqlite_entries.go:187-259 | any other successful update leaves member rows that do not fit the groups |
| DirectoryInvariant.UpdateInvariantExact | internal/store/sqlite_entries.go:187-259 | so a successful update keeps the invariant if and only if it is of that kind |
| DirectoryInvariant.RunKeepsInvariant | internal/store/sqlite_entries.go:64-259 | all states of a run of successful and failed steps satisfy the invariant if and only if all its steps are safe |
| DirectoryInvariant.RunKeepsCore | internal/store/sqlite_entries.go:64-259 | every state of every run satisfies its core, whatever the updates |
| DirectoryInvariant.StepKeepsUuids | internal/store/sqlite_entries.go:295-331 | no step, safe or not, changes the stable id of any entry |
| DirectoryInvariant.RunKeepsUuids | internal/store/sqlite_entries.go:295-331 | an entry's stable id is the same at all later points of a run |
| StoreChecks.CreationExact | internal/store/sqlite_entries.go:64-178 | an entry is created if and only if it has a DN, a class and its place, is new, and has what its class requires; the first condition that fails decides the error |
| StoreChecks.UpdateExact | internal/store/sqlite_entries.go:187-259 | an update needs a DN, a class, the stored entry and its members, and nothing else |
| StoreChecks.RequiredExact | internal/store/sqlite_entries.go:126-175 | users need uid, cn and sn, groups cn and a member, organizational units ou, each with a first value that is not empty |
| StoredValues.RunStoresNothingManaged | internal/store/sqlite_entries.go:278-287 | in no state of any run is there an attribute row named userPassword, objectClass, createTimestamp, modifyTimestamp, memberOf or uuid, in any case |
| StoredValues.CreatedValues | internal/store/sqlite_entries.go:64-178 | after a creation every other name has exactly its values as rows, entryUUID the stable id, and a user its password beside them |
| StoredValues.UpdatedValuesExact | internal/store/sqlite_entries.go:187-259 | after an update likewise, with the stable id of before; other entries keep theirs, and a password is replaced only by one that is not empty |
| StoredValues.MissingUuidAssigned | internal/store/sqlite_entries.go:295-331 | an entry without a stable id is given a new one by its next update |
| StoredValues.RunKeepsPasswords | internal/store/sqlite_entries.go:64-259 | in every state of every run users, and no other entries, have a password |
| Scope.SubtreeExact | internal/store/sqlite_search.go:341-361 | the recursive query reaches exactly the entries that have the base among their first 100 parents |
| Scope.SubtreeAgrees | internal/store/sqlite_search.go:295-361 | within that depth, the query and the comparison of DN texts select the same entries |
| Scope.ScopesAgreeUnlessAbove | internal/store/sqlite_search.go:295-361 | they agree on the whole directory if and only if the search base is not strictly above its base |
| SearchQuery.ArgumentsAligned | internal/store/sqlite_search.go:306-363 | as many arguments as `?`, with the base DN first for a subtree and last otherwise |
| SearchQuery.WhereParses | internal/store/sqlite_search.go:318-361 | a clause in its parentheses stays one unit, alone or before the scope test |
| SearchQuery.QuerySelects | internal/store/sqlite_search.go:306-363 | a query selects the rows in scope on which its clause holds |
| SearchQuery.CompiledSelects | internal/store/sqlite_search.go:306-363 | with a compiled filter: the rows in scope whose entry matches it, its tests on times blinded |
| SearchQuery.UnfilteredSelects | internal/store/sqlite_search.go:306-363 | with `1=1`: the rows in scope |
| SearchScan.ScanRows | internal/store/sqlite_search.go:236-283 | the loop with its current entry computes the scan |
| SearchScan.ScanIsScanned | internal/store/sqlite_search.go:236-283 | sorted rows give one entry for each id, with exactly the values joined to it |
| SearchScan.ScanLists | internal/store/sqlite_search.go:236-283 | however the rows of an entry are ordered or repeated, the scan lists each chosen entry once with exactly its values |
| SearchScan.FilterEntriesByScope | internal/store/sqlite_search.go:285-293 | filtering in place over the front of its own input keeps exactly the entries in scope, in order |
| SearchScan.InScopeLists | internal/store/sqlite_search.go:285-304 | the list cut down to the scope lists the chosen entries in scope |
| SearchRoutes.FindMemberOfValue | internal/schema/filter_compiler.go:88-117 | the loop with its remembered value finds the group a conjunction tests |
| SearchRoutes.MemberOfFromMeans | internal/schema/filter_compiler.go:88-117 | then every conjunct tests that group, is empty, or asks for a user, and one does test it |
| SearchRoutes.ShortcutExact | internal/schema/filter_compiler.go:88-117 | a filter takes the group shortcut if and only if it is a memberOf test, or a conjunction of such tests and tests for users that, after any empty ones, all name one group |
| SearchRoutes.CompilableUsesNoComputed | internal/schema/filter_compiler.go:59-164 | a filter that compiles uses no computed attribute |
| SearchRoutes.SameValuesMatch | internal/schema/filter.go:300-414 | matching depends only on which values there are, and on memberOf only if the filter uses it |
| SearchRoutes.FullEntryDecides | internal/store/sqlite_search.go:81-123 | filtering before populating is the same as after, for filters that do not use memberOf |
| SearchRoutes.MemberOfTestMeans | internal/store/sqlite_search.go:183-213 | a memberOf test on a full entry is the downward walk from that group |
| SearchRoutes.HiddenTestMatchesNothing | internal/schema/filter_compiler.go:88-117 | a conjunction with an empty memberOf test matches no entry, whatever else it tests |
| SearchRoutes.AttributeRouteExact | internal/store/sqlite_search.go:149-181 | the attribute shortcut finds an entry if and only if the filter, blinded if it tests a time, matches it |
| Search.SqlScopeAgrees | internal/store/sqlite_search.go:295-363 | the scope tests of the SQL text and of the in-memory filter agree, for all three scopes |
| Search.QueryEntries | internal/store/sqlite_search.go:68-79 | one entry for each selected row |
| Search.QueryJoined | internal/store/sqlite_search.go:149-213 | the joined rows of the chosen entries, and no others |
| Search.ScanInScope | internal/store/sqlite_search.go:168-180 | scanning, cutting to the scope and populating answers with the chosen entries in scope |
| Search.SearchByMemberOf | internal/store/sqlite_search.go:183-234 | the group shortcut returns exactly the entries in scope that match a memberOf test on the group |
| Search.SearchByAttribute | internal/store/sqlite_search.go:149-181 | the attribute shortcut returns exactly the entries in scope that match the blinded filter |
| Search.CompiledAnswer | internal/store/sqlite_search.go:46-66 | a compiled query selects exactly the entries in scope that match the blinded filter |
| Search.KeepAnswer | internal/store/sqlite_search.go:90-112 | matching in memory leaves exactly the expected entries |
| Search.SearchByQuery | internal/store/sqlite_search.go:46-132 | the general route answers with exactly the entries that match, blinded if the filter compiles, whichever order it populates and filters in, clearing memberOf when it was not asked for |
| Search.SearchEntries | internal/store/sqlite_search.go:26-147 | for every filter and whichever route is taken, exactly the entries in scope whose full entry matches the filter answered, each once, and an error if and only if the filter does not parse |
| SearchMeaning.StringLeExact | internal/schema/filter.go:351-378 | a text is at or after another if and only if it equals it, extends it, or has the greater character at the first place they differ |
| SearchMeaning.NestedIsReaches | internal/store/sqlite_membership.go:145-222 | an entry is nested in a group if and only if a list of 2 to 102 ids, each next to the previous in a member row, leads there |
| SearchMeaning.FullValues | internal/schema/filter.go:394-414 | the values of every attribute of a full entry are those of its columns, its attribute rows, or, for memberOf of a user, the groups it is nested in |
| SearchMeaning.ZoneIsStripped | internal/schema/filter.go:460-484 | a time bound means the same with `Z`, with `z` and without zone letter |
| SearchMeaning.SatisfiesExact | internal/schema/filter.go:300-391 | on every store that keeps its invariant, for every filter, matching the full entry says exactly what the tables say |
| SearchMeaning.SearchFinds | internal/store/sqlite_search.go:26-147 | what a search has to return are the rows in scope of which the tables satisfy the filter answered |
| SearchMeaning.MissingColumns | internal/schema/filter.go:394-414 | an entry has no class or time value if and only if the class is empty or the time is the zero time |
| SearchMeaning.ScopeIgnoresSpace | internal/store/sqlite_search.go:285-304 | white space around the base or a DN changes no scope |
| SearchLimits.GroupShortcutRight | internal/schema/filter_compiler.go:88-117 | the group shortcut answers as asked on every store if and only if the filter hides no empty memberOf test or the group DN has outer space |
| SearchLimits.BlindDiffers | internal/schema/filter_compiler.go:18-43 | blinding changes what a filter says of an entry if and only if the filter notices the entry's times |
| SearchLimits.CompiledSearchRight | internal/store/sqlite_search.go:46-66 | a compiled search answers as asked on a store if and only if the filter notices the times of no entry in scope |
| SearchLimits.TimeTestRight | internal/schema/filter_compiler.go:121-129 | a single compiled test on a time answers as asked on every store if and only if no time satisfies it |
| SearchLimits.TimeEqualityRight | internal/schema/filter_compiler.go:167-185 | an equality test on a time does if and only if its value is not a time |
| SearchLimits.TimePresenceWrong | internal/schema/filter_compiler.go:188-203 | a presence test on a time does not |
| SearchLimits.NamesTimeExact | internal/schema/filter.go:394-414 | a value equals some formatted time, ignoring case, if and only if it is fourteen digits of a time and a zone letter |
| Records.ValuesInOrder | internal/ldif/parser.go:24-35 | the values given under a name, ignoring case, in the order of the record and as often as they occur |
| ImportOrder.Pass | internal/ldif/import_plan.go:307-324 | a pass over the reused buffer loses nothing: emitted and left-over entries still make up the batch, and it makes progress or nothing left over is ready |
| ImportOrder.StuckMeansNoOrder | internal/ldif/import_plan.go:319-321 | if nothing left over is ready, no order of the batch exists |
| ImportOrder.OrderEntries | internal/ldif/import_plan.go:302-326 | an order is returned if one exists, and failure means that none does |
| ImportOrder.PermutationDistinct | internal/ldif/import_plan.go:302-326 | an order keeps the keys of the batch distinct |
| ImportOrder.CyclesHaveNoOrder | internal/ldif/import_plan.go:328-348 | a circle of entries of any length, each waiting for the next, leaves the batch without an order |
| ImportOrder.OrderExistsExact | internal/ldif/import_plan.go:302-348 | a batch has an order if and only if it has no such circle |
| ImportOrder.DnKeyExact | internal/ldif/import_plan.go:350-352 | two DNs have one key if and only if they are equal up to case and outer space |
| ImportPlan.PrimaryObjectClass | internal/ldif/import_plan.go:173-210 | the loop over the objectClass values computes the class or refuses |
| ImportPlan.PrimaryClassExact | internal/ldif/import_plan.go:173-210 | a class is found if and only if all values are known and exactly one is structural, or none on a base entry that is `top` |
| ImportPlan.EntryFromRecord | internal/ldif/import_plan.go:117-171 | the entry built step by step from a record, or a refusal, as specified |
| ImportPlan.PlanImport | internal/ldif/import_plan.go:56-115 | a plan is made if and only if the batch is acceptable and has an order, and it is such an order |
| ImportPasswords.StructuralExact | internal/ldif/import_plan.go:173-210 | which texts name the three structural classes and `top`, ignoring case and outer space |
| ImportPasswords.BuiltExact | internal/ldif/import_plan.go:117-234 | a record is built if and only if it is within the base, sets no server attribute, names one class, and has what that class requires, for a user one password that can be hashed |
| ImportPasswords.BuiltMeans | internal/ldif/import_plan.go:117-171 | a built user has the hash of the one password given, or of a generated one if none is given and that is allowed; no other entry has a password; class, parent and times are those of the record and the import |
| ImportAccepted.RecordExact | internal/ldif/import_plan.go:235-300 | a record is accepted if and only if it can be built, what it would replace may be overwritten and has its class, its parent is in the batch or stored unless it is the base entry, and so are the members of a group |
| ImportAccepted.AcceptedExact | internal/ldif/import_plan.go:56-115 | a batch is accepted if and only if the base is set, no two records have one DN, and every record is accepted |
| ImportApply.ApplyImport | internal/ldif/import_apply.go:21-56 | writes the plan in order up to the first failure; a ready plan has none |
| ImportApply.WrittenExists | internal/ldif/import_apply.go:21-56 | a write makes its own DN exist and no other |
| ImportApply.AppliedExists | internal/ldif/import_apply.go:21-56 | after part of a plan exactly the old DNs and the written ones exist |
| ImportApply.NextWriteSucceeds | internal/ldif/import_apply.go:21-56 | after any part of a ready plan the next placement, existence, model and member check passes |
| ImportFit.PlainValues | internal/ldif/import_plan.go:132-141 | the attributes of a built entry are those of its record, in order |
| ImportResult.CreateStores | internal/store/sqlite_entries.go:64-178 | a creation stores exactly its own values and leaves those of all other entries alone |
| ImportResult.ImportAddsBatch | internal/ldif/import_apply.go:50-55 | any part of a finished import that does not overwrite leaves the old entries as they were plus exactly that part of the plan, and the core of the invariant |
| ImportResult.ImportKeepsInvariant | internal/ldif/import_apply.go:21-56 | every part of an import, overwriting or not, keeps the store's invariant |
| ImportResult.ImportRecords | internal/ldif/import_apply.go:21-56 | planning and applying: it succeeds if and only if the batch fits; the store then holds the old entries plus exactly the batch, or its new values; the invariant is kept even when it fails |
| ImportPasswords.PlanPasswordsStored | internal/ldif/import_apply.go:21-56 | after any part of an import the users written have their planned passwords, unless an empty one would replace one |
| ImportPasswords.ImportedPasswords | internal/ldif/import_apply.go:21-56 | after an import every record of a user has stored, hashed, the password it gives or the one generated for it |
| ImportResult.BuiltIsWellBuilt | internal/ldif/import_plan.go:117-171 | a planned entry has the shape the invariant asks of its callers |
| ImportFit.MembersOfRecord | internal/ldif/import_plan.go:132-141 | in particular its members are the member values of the record |
| ImportFit.PlannedUnlessCyclic | internal/ldif/import_plan.go:302-348 | an accepted batch is planned if and only if nothing in it waits, in a circle, for itself |
| ImportFit.FittingPlanReady | internal/ldif/import_apply.go:21-56 | the plan of a batch that fits the store is ready |
| ImportFit.AppliedFits | internal/ldif/import_apply.go:21-56 | and a batch whose plan was carried out to the end did fit |
| ImportFit.WithBaseFits | internal/ldif/import_plan.go:56-115 | an accepted batch without outer space in DNs and members fits a store that has the base entry |
| ImportFit.WithoutBaseFits | internal/store/sqlite_entries.go:333-362 | on a store without it, which is empty, it fits if and only if it is empty or the base has no parent DN |
| Base64.EncodePrintable | internal/ldif/writer.go:38-46 | encoded text has no spaces or breaks and whole quanta |
| Base64.RoundTrip | internal/ldif/parser.go:162-169 | decoding undoes encoding on every list of bytes |
| Base64.EncodeUndoesDecode | internal/ldif/parser.go:162-169 | a text that decodes is the encoding of its bytes if and only if its unused bits are zero |
| Base64.AlphabetExact | internal/ldif/parser.go:162-169 | the digits are A to Z, a to z, 0 to 9, `+` and `/` |
| Base64.QuantumIsNumber | internal/ldif/parser.go:162-169 | three bytes and their four digits are the same number |
| Base64.BreaksDoNotMatter | internal/ldif/parser.go:162-169 | a line break inside an encoding changes nothing |
| LdifWriter.WriteFoldedLine | internal/ldif/writer.go:67-75 | the loop writes the folded lines, each ended |
| LdifWriter.Fold | internal/ldif/writer.go:67-75 | no folded line is longer than 76 bytes |
| LdifWriter.FoldExact | internal/ldif/writer.go:67-75 | lines of up to 76 bytes are not folded, all parts but the last have exactly 76 bytes, and all but the first start with a space |
| LdifWriter.SafeTextExact | internal/ldif/writer.go:38-65 | safe text is written as itself, and everything else in base64 |
| LdifWriter.WriteRecord | internal/ldif/writer.go:19-22 | the folded lines of one record |
| LdifWriter.WriteAll | internal/ldif/writer.go:13-25 | the builder loop writes the specified text |
| LdifWriter.FormatIsLines | internal/ldif/writer.go:13-25 | the text is the folded lines of the records, separated by empty lines |
| LdifParser.UnfoldLines | internal/ldif/parser.go:107-125 | appending in place to the last line unfolds as specified |
| LdifParser.Parse | internal/ldif/parser.go:61-100 | the loop with its current record parses as specified |
| LdifLines.UnfoldExact | internal/ldif/parser.go:107-125 | a file unfolds unless its first line starts with a space; each physical line then belongs to exactly one logical line, which has the number of its first |
| LdifLines.LineForms | internal/ldif/parser.go:148-176 | what a value after a colon, a space, a second colon and a `<` is read as |
| LdifLines.LineRefused | internal/ldif/parser.go:148-159 | lines without colon, without name, or with white space in the name are refused |
| LdifLines.ParagraphExact | internal/ldif/parser.go:61-100 | lines without a blank one are one record if and only if every line but comments is good and one gives the DN; it has the attributes of the others in order, with their line numbers |
| LdifLines.BlankLineSeparates | internal/ldif/parser.go:61-100 | what is before a blank line and what is after it are read on their own |
| LdifRoundTrip.LineRoundTrip | internal/ldif/parser.go:148-176 | a written attribute line is split into its name and value, for any bytes |
| LdifRoundTrip.UnfoldFolded | internal/ldif/parser.go:107-125 | unfolding undoes folding for every line that does not start with a space |
| LdifRoundTrip.WrittenLines | internal/ldif/writer.go:67-75 | the parser sees exactly the lines written, and none is longer than 76 bytes |
| LdifRoundTrip.ParseFile | internal/ldif/parser.go:61-100 | the lines of a file are parsed into its records |
| LdifRoundTrip.FormatParses | internal/ldif/parser.go:61-188 | parsing what was formatted gives the records up to line numbers, unless one has no DN, and then it fails |
| LdifBreaks.AnyBreaksParse | internal/ldif/parser.go:107-109 | a text with CRLF or CR in place of each line feed gives the same records with the same line numbers |
| LdifBreaks.FormattedBreaksParse | internal/ldif/parser.go:107-109 | in particular formatted records written with other line ends are read back |
| LdifParser.ParsedRecordsNamed | internal/ldif/parser.go:61-188 | no record that was parsed has an empty DN or an unnamed attribute, as the import assumes |
| Ber.StrippedIsMinimal | internal/protocol/ber/writer.go:74-89 | cutting leading zeros leaves the shortest big-endian form |
| Ber.AppendLength | internal/protocol/ber/writer.go:74-89 | the buffer and its loop append the short form or the shortest long form |
| Ber.LengthSize | internal/protocol/ber/writer.go:91-100 | the shifting loop computes the size of the length field |
| Ber.WriteTlv | internal/protocol/ber/writer.go:23-29 | tag, length and value |
| Ber.ScanLength | internal/protocol/ber/reader.go:56-88 | the accumulating loop reads a shortest-form length of at most four bytes |
| Ber.LengthRoundTrip | internal/protocol/ber/reader.go:56-88 | a written length is read back, whatever follows |
| Ber.LengthIsWritten | internal/protocol/ber/reader.go:56-88 | a length that is accepted is the one that would be written |
| Ber.ReadOne | internal/protocol/ber/reader.go:13-41 | the reader computes the specified packet |
| Ber.ReadMany | internal/protocol/ber/reader.go:43-54 | the loop over the shrinking input computes the specified packets |
| Ber.WriteThenRead | internal/protocol/ber/reader.go:13-54 | the encoding of a tree followed by any bytes is read as that tree and its exact length |
| Ber.ReadThenWrite | internal/protocol/ber/reader.go:13-54 | whatever is read is a tree whose encoding is exactly the bytes consumed |
| Ber.ReadExactlyWritten | internal/protocol/ber/reader.go:13-54 | a packet is read from some bytes if and only if it is a tree written there |
| Ber.ChildrenExact | internal/protocol/ber/reader.go:13-54 | of every packet read, the children put together are the value if the tag is in 0x20..0x3f, 0x60..0x7f, 0xa0..0xbf or 0xe0..0xff, and else there are none |
| Ber.SequenceReads | internal/protocol/ber/reader.go:13-54 | a SEQUENCE (0x30) of any packets that can be written reads back as exactly these |
| Ber.SizeLimitExact | internal/protocol/ber/reader.go:13-41 | a value may have up to 16777216 bytes and no more |
| BerIntegers.ReadInt | internal/protocol/ber/reader.go:97-106 | the shifting loop, with wrap-around, computes the specified integer |
| BerIntegers.ShiftedWraps | internal/protocol/ber/reader.go:97-106 | that integer is the unsigned value modulo two to the 64th |
| BerIntegers.WriteInt | internal/protocol/ber/writer.go:102-114 | the buffer and its loop write the specified bytes |
| BerIntegers.IntRoundTrip | internal/protocol/ber/writer.go:102-114 | every 64-bit integer is read back as it was written |
| BerIntegers.NonNegativeIsShortest | internal/protocol/ber/writer.go:102-114 | a non-negative integer is written in the shortest two's-complement form |
| BerIntegers.NegativeTakesEight | internal/protocol/ber/writer.go:102-114 | a negative one takes eight bytes, which is shortest if and only if it is below minus two to the 55th |
| BerIntegers.IntIsTwosComplement | internal/protocol/ber/reader.go:97-106 | Int gives the two's-complement number if and only if the top bit is clear, or from eight bytes on if the number fits |
| BerBooleans.ScanBerLength | internal/protocol/transport.go:106-136 | the accumulating loop reads a length of up to four bytes, shortest or not |
| BerBooleans.NormalizeOne | internal/protocol/transport.go:72-97 | one turn of the loop rewrites one packet and leaves everything else alone |
| BerBooleans.NormalizeValue | internal/protocol/transport.go:89-95 | a true boolean is made 0xff, a constructed value is gone through |
| BerBooleans.NormalizeInRange | internal/protocol/transport.go:71-99 | the pass overwrites the array in the range as specified, and nothing outside it |
| BerBooleans.NormalizeBooleans | internal/protocol/transport.go:67-69 | the whole array |
| BerBooleans.NormIdempotent | internal/protocol/transport.go:71-99 | the pass is idempotent on any bytes |
| BerBooleans.NormChangesBooleans | internal/protocol/transport.go:89-91 | on any bytes, what changes are non-zero bytes right after the header of a boolean: the tag 0x01 and a length of one in any form; they become 0xff |
| BerBooleans.NormOfPackets | internal/protocol/transport.go:71-99 | on written packets, the pass does to the bytes what making true booleans 0xff at any depth does to the trees |
| BerBooleans.NormReads | internal/protocol/transport.go:67-99 | bytes that hold one packet then hold that packet with exactly its true booleans made 0xff |
| BerBooleans.BooleanReads | internal/protocol/transport.go:67-99 | bytes that hold one boolean then hold the boolean of the same truth, as 0 or 0xff |
| Examples.EqualityDoesNotSurvive | internal/server/search.go:277-367 | an equality test on `a>=b` is read back as another filter |
| Examples.InnerPieceMissed | internal/server/search.go:277-346 | the substring filter `*b*` misses a value it should match |
| Examples.TimePresenceFindsNothing | internal/schema/filter_compiler.go:188-203 | `(createTimestamp=*)` finds nothing on any store |
| Examples.RoutesDisagree | internal/store/sqlite_search.go:46-132 | beside a test that does not compile it finds all that is in scope |
| Examples.HiddenTestAnswersMembers | internal/schema/filter_compiler.go:88-117 | `(&(memberOf=)(memberOf=cn=g,dc=b))` is not answered as asked on every store |
| Examples.AboveTheDirectory | internal/store/sqlite_search.go:295-361 | searched from its parent DN, a base entry is in scope and not selected |
| Examples.MinusOneInOneByte | internal/protocol/ber/reader.go:97-106 | the byte 0xff is read as 255, not as minus one |
| Examples.GroupRowsWithoutGroup | internal/store/sqlite_entries.go:187-259 | two successful steps from the empty store leave member rows that belong to no group |
| Examples.BaseRecordNotCreated | internal/store/sqlite_entries.go:333-362 | the record of a base entry with a parent DN is accepted and ordered, but does not fit the empty store |

## Left out

- Deleting entries, and everything that depends on cascades and foreign keys.
- The SQL engine itself: NULL, JSON aggregation, the driver's storage of times and the order of rows that ORDER BY
  leaves open. Times are whole-second UTC texts and never the zero time.
- Case folding and trimming outside ASCII; a decoded `\xx` pair is one character.
- Entries are values in sequences here, where the program shares pointers to them; the store's tables are one field.
- Argon2 hashing, UUIDs, generated passwords and the clock: parameters. The list of generated passwords of a plan is
  not modelled, nor are error messages: only which error, or that there is one.
- Search.SearchEntries: assumes trimmed DNs and base, entries at most 100 levels below the base, and, for a subtree, a
  base not above the directory's, of which `Scope.ScopesAgreeUnlessAbove` says what happens otherwise. The filter is
  any filter.
- SearchLimits.CompiledSearchRight: is an equivalence for each store; for all stores at once there is one for single
  tests only.
- Membership.UpDownDuality: needs member rows to be owned by groupOfNames entries, as the store's invariant says.
- ImportResult.ImportAddsBatch: is about imports that do not overwrite; of overwriting ones it is proved that they
  succeed if and only if the batch fits, that they are the specified writes in order, and that they keep the
  invariant.
- ImportFit.WithBaseFits: needs DNs and members without outer space, which the planner ignores and the store does not.
- LdifRoundTrip.FormatParses: attribute names are printable ASCII without space or colon, do not start with `#` and
  are not `dn` or `changetype`.
- FilterRoundTrip.RoundTrip: attribute descriptions have no `)`, no `=` and no outer space, and do not start or end
  with a character of the filter syntax; those of section 2.5 of RFC 4512 never do.
- SubstringMeaning.SubstringsServedAsMeant: pieces are not empty and hold no U+E000, and the attribute is an ordinary
  one.
- What follows the first filter of a filter string is ignored, as the parser does.
- LDIF export, `Filter.String`, decoding of LDAP requests beyond BER, reading from sockets, TLS, logging,
  authorization, attribute selection and the web interface.
