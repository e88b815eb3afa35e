# A Dafny model of four query-engine components of datafuse

This project models four sequential pieces of the datafuse query engine as
pure functions over immutable datatypes, and proves what they promise.

- **Expression-chain compiler** (`chain.dfy`, module `Chain`). It flattens each
  expression tree into an append-only list of `Input`, `Constant`, `Alias` and
  `Function` actions. Sub-expressions come before the node that uses them.
  Qualified columns, embedded aggregates and unknown columns are errors.
  Wildcard and Sort nodes append nothing.
- **Aggregate-function registry** (`aggregate_function_factory.dfy`, module
  `AggregateFunctionFactory`).
  - The lookup is case-insensitive; an exact match comes first.
  - On a miss it tries the first combinator whose name is a suffix of the
    requested name, strips it, and looks up the rest.
  - `check` accepts a name when any combinator works.
  - `registered_names` lists the base names.
- **Grants** (`user_grant.dfy`, module `UserGrant`).
  - Containment between grant objects.
  - Verifying a privilege against an entry and against a grant set.
  - Granting, which merges into a matching entry or appends a new one.
  - Revoking, which toggles the privileges and drops empty entries.
  - How objects and entries are rendered as text.
- **Final aggregation transform** (`transform_aggregator_final.dfy`, module
  `AggregatorFinalTransform`). It drains a stream of blocks of serialized
  partial states and merges each state into its aggregate function. It then
  emits exactly one block of final results.

Supporting modules:

- `Wrappers` (`Option`).
- `Exception` (`ErrorCode`, and a `Result` usable with `:-`).
- `DataValues` (data types, values and a schema as a map from field name to type).
- `Ascii` (lower-casing, suffix tests and suffix stripping).

Parts of the system outside these files are parameters of the model, not
definitions:

- the scalar function factory;
- the cast constructors;
- `to_data_type`;
- the display name of an expression;
- the aggregate functions' `merge` and `merge_result`;
- JSON decoding;
- value extraction from a column;
- the per-object privilege catalogue.

The traversal that `recursion_add_expr` delegates to a visitor is modelled as a
plain left-to-right walk that visits a node's sub-expressions before the node;
the order among siblings is an assumption of the model (see "## Left out").
Two reference definitions give independent specifications, and lemmas connect
each of them to the operation:

- `Chain.PostOrder` with `Chain.FoldAdd`: the nodes in visiting order, folded
  through `add_expr`.
- `AggregatorFinalTransform.StatesFor` with `AggregatorFinalTransform.FoldMerge`:
  each function folding only its own states.

## Model

| member | source | states |
|---|---|---|
| DataValues.FieldType | src/query/legacy-expression/src/chain.rs:87 | a field lookup succeeds exactly when the name is in the schema, returns that field's type, and otherwise fails with `FieldNotFound` naming the field |
| Chain.ArgTypes | src/query/legacy-expression/src/chain.rs:156-159 | typing a list of arguments succeeds iff every argument types; the result has one type per argument, in order; a failure is the error of the first argument that does not type |
| Chain.BindColumn | src/query/legacy-expression/src/chain.rs:86-93 | a column yields exactly one `Input` named after the column with the schema field's type; a name missing from the schema is `FieldNotFound` and yields no action |
| Chain.BindAlias | src/query/legacy-expression/src/chain.rs:75-85 | an alias yields one `Alias` action named by the alias; its argument is the sub-expression's column name and its type is the alias expression's type; it fails exactly when that type cannot be computed |
| Chain.BindFunction | src/query/legacy-expression/src/chain.rs:110-238 | unary, binary, scalar and map-access nodes (the cast arm between them is `BindCast`) succeed iff every operand types and the factory resolves the operator; the `Function` action then names the operator (`get` for map access), lists the operands' column names and types in operand order, and takes the resolved function's return type |
| Chain.BindCast | src/query/legacy-expression/src/chain.rs:187-214 | a cast emits a `cast` function whose return type is the target type; the try-cast constructor is used exactly when the target is nullable; it succeeds iff the operand types and the chosen constructor succeeds |
| Chain.AddExpr | src/query/legacy-expression/src/chain.rs:73-241 | Wildcard and Sort append nothing; QualifiedColumn and AggregateFunction fail with `LogicalError`; a literal appends a `Constant` with its value and declared type unchanged; every other successful node appends exactly one action named by the node's column name |
| Chain.Visit | src/query/legacy-expression/src/chain.rs:53-71 | compiling a tree only appends: the actions already present stay as a prefix, and the node's own action, when it has one, is the last one appended: exactly the action `add_expr` emits for the node |
| Chain.VisitIsFold | src/query/legacy-expression/src/chain.rs:57-66 | the recursive walk equals adding the nodes one by one in post-order (sub-expressions left to right, then the node), because actions are emitted only in `post_visit` and `pre_visit` always continues |
| Chain.ActionsFollowSubExpressions | src/query/legacy-expression/src/chain.rs:57-66 | dependency order: the node's action, exactly as `add_expr` emits it, comes last, and every sub-expression that has an action is named by an action placed strictly before the node's |
| Chain.CompileCount | src/query/legacy-expression/src/chain.rs:84-236 | a compiled expression holds exactly one action per node that is neither a Wildcard nor a Sort |
| Chain.CompileFirstError | src/query/legacy-expression/src/chain.rs:63 | compiling an expression fails exactly when some node fails, and the error is that of the first failing node in visiting order |
| Chain.CompileRejectsUnresolved | src/query/legacy-expression/src/chain.rs:94-98 | a qualified column or an aggregate anywhere in the tree makes compilation fail, and the error is a `LogicalError` when no earlier node has already failed |
| Chain.CompileEach | src/query/legacy-expression/src/chain.rs:46-48 | the reference for a list: it succeeds iff every expression compiles on its own, and otherwise reports the first failing expression's error |
| Chain.VisitPrepend | src/query/legacy-expression/src/chain.rs:46-48 | compiling onto an existing action list appends exactly the actions the expression compiles to on its own |
| Chain.TryCreate | src/query/legacy-expression/src/chain.rs:40-51 | a chain is created iff every expression compiles; its actions are the concatenation of each expression's actions in list order; otherwise the error is the first failing expression's |
| Ascii.ToLower | common/functions/src/aggregates/aggregate_function_factory.rs:78 | lower-casing keeps the length, maps each character to its lower-case form and yields a lower-case string |
| Ascii.StripSuffix | common/functions/src/aggregates/aggregate_function_factory.rs:84-86 | stripping succeeds exactly when the string ends with the suffix, and the remainder followed by the suffix is the string |
| AggregateFunctionFactory.FindKey | common/functions/src/aggregates/aggregate_function_factory.rs:72-74 | the case-insensitive map lookup finds an entry iff some key equals the name up to case, and the entry it finds has such a key |
| AggregateFunctionFactory.ResolveCombinator | common/functions/src/aggregates/aggregate_function_factory.rs:78-97 | on a miss the combinator is the first in registration order whose lower-cased key is a suffix; the nested name is the lower-cased name with that suffix stripped, and it is registered; if the first matching combinator's remainder is unregistered, or no suffix matches, the result is `UnknownAggregateFunction` |
| AggregateFunctionFactory.Resolve | common/functions/src/aggregates/aggregate_function_factory.rs:62-100 | an exact case-insensitive match wins over combinators; otherwise combinator resolution decides; an error is always `Unsupported AggregateFunction: <name>`, and it occurs exactly when neither route applies |
| AggregateFunctionFactory.Get | common/functions/src/aggregates/aggregate_function_factory.rs:62-100 | a base constructor is called with the name as requested; a combinator is called with the lower-cased nested name and the nested base constructor; whatever `get` builds, `check` accepts; a name `check` rejects is `UnknownAggregateFunction` |
| AggregateFunctionFactory.Check | common/functions/src/aggregates/aggregate_function_factory.rs:102-125 | `check` holds iff the name is registered up to case, or some combinator in any position strips the lower-cased name to a registered name |
| AggregateFunctionFactory.RegisteredNames | common/functions/src/aggregates/aggregate_function_factory.rs:127-130 | the listed names are exactly the base keys in insertion order; combinators are not listed |
| AggregateFunctionFactory.FindKeyFindsTheEntry | common/functions/src/aggregates/aggregate_function_factory.rs:72-74 | in a registry whose keys are distinct up to case, as a case-insensitive map's are, lookup finds the one entry whose key matches |
| AggregateFunctionFactory.RegisteredNamesAreTheEntries | common/functions/src/aggregates/aggregate_function_factory.rs:127-130 | in such a registry the listed names are distinct up to case and each resolves directly to the constructor registered under it |
| AggregateFunctionFactory.ResolveImpliesCheck | common/functions/src/aggregates/aggregate_function_factory.rs:80-94 | every name `get` resolves is accepted by `check` |
| AggregateFunctionFactory.CheckAcceptsWhatGetRejects | common/functions/src/aggregates/aggregate_function_factory.rs:80-94 | the converse fails: with base `sum` and combinators `f` then `if`, `get("sumif")` commits to `f`, finds `sumi` unregistered and fails, while `check("sumif")` holds through `if` |
| AggregateFunctionFactory.SumIfExample | common/functions/src/aggregates/aggregate_function_factory.rs:80-92 | with base `sum` and combinator `if`, `sumif` resolves to `if` wrapping `sum` with nested name `sum` |
| AggregateFunctionFactory.UpperCaseExample | common/functions/src/aggregates/aggregate_function_factory.rs:72-75 | `SUM` resolves to the constructor registered as `sum` |
| AggregateFunctionFactory.UnknownNameExample | common/functions/src/aggregates/aggregate_function_factory.rs:97 | a name that is neither registered nor ends in a combinator's name is `Unsupported AggregateFunction: sumxx` |
| AggregateFunctionFactory.CaseInsensitive | common/functions/src/aggregates/aggregate_function_factory.rs:72-78 | names equal up to case resolve to the same constructor and are accepted alike by `check` |
| AggregateFunctionFactory.RegisteredNamesResolve | common/functions/src/aggregates/aggregate_function_factory.rs:127-130 | every listed name resolves by exact match and is accepted by `check` |
| UserGrant.Contains | common/meta/types/src/user_grant.rs:30-43 | `Global` contains everything; `Database(d)` contains itself and every table of `d`, and never `Global`; `Table(d, t)` contains only itself |
| UserGrant.ContainsIsPreorder | common/meta/types/src/user_grant.rs:32-43 | containment is reflexive, transitive and antisymmetric |
| UserGrant.ObjectToString | common/meta/types/src/user_grant.rs:55-63 | `Global` alone renders as `*.*`; a database renders ending in `.*`, a table ending in a quote; both start with the quoted database name; `ParseObjectToString` is its inverse |
| UserGrant.ParseObjectToString | common/meta/types/src/user_grant.rs:57-61 | the rendering `*.*`, `'db'.*` or `'db'.'tbl'` can be read back to the same object when the names hold no quote |
| UserGrant.RenderingIsAmbiguousWithQuotes | common/meta/types/src/user_grant.rs:59-60 | names are written without escaping, so two different tables whose names contain quotes render alike |
| UserGrant.VerifyEntry | common/meta/types/src/user_grant.rs:88-121 | an entry verifies a request iff the user is equal, the host pattern is `%` or equals the host, the entry's object contains the requested object, and the privilege is held |
| UserGrant.EntryToStringParts | common/meta/types/src/user_grant.rs:123-144 | an entry renders as `GRANT <privileges> ON <object> TO '<user>'@'<host>'`; the privilege text is `ALL` exactly when the entry holds every privilege its kind of object can carry (provided no privilege set itself renders as `ALL`), and otherwise the rendering of the held set |
| UserGrant.EntryTailNamesObject | common/meta/types/src/user_grant.rs:138-142 | the object text in an entry's rendering follows ` ON ` and reads back to the entry's object when its names hold no quote |
| UserGrant.VerifyPrivilege | common/meta/types/src/user_grant.rs:160-170 | a grant set verifies a request iff at least one of its entries does |
| UserGrant.MergeInto | common/meta/types/src/user_grant.rs:183-190 | each entry for the same user, host pattern and object gains the privileges, every other entry is unchanged, and the `changed` flag is set iff such an entry exists |
| UserGrant.GrantPrivileges | common/meta/types/src/user_grant.rs:172-202 | matching entries gain the privileges in place and nothing is appended; with no match exactly one new entry is appended at the end; other entries and the order are unchanged |
| UserGrant.GrantThenVerify | common/meta/types/src/user_grant.rs:172-202 | after granting privileges to a user at a host pattern on an object, each granted privilege verifies for that user, host and object |
| UserGrant.GrantIsMonotone | common/meta/types/src/user_grant.rs:183-199 | granting never makes a request that verified before fail |
| UserGrant.GrantIsIdempotent | common/meta/types/src/user_grant.rs:172-202 | granting the same privileges twice gives the same grant set as granting them once |
| UserGrant.Toggle | common/meta/types/src/user_grant.rs:218 | the toggled flags hold the revoked flags the entry lacked and keep exactly the held flags outside the revoked set |
| UserGrant.ToggleMatching | common/meta/types/src/user_grant.rs:212-223 | only the entries for the same user, host pattern and object are toggled; the others are unchanged and in place |
| UserGrant.DropEmpty | common/meta/types/src/user_grant.rs:224-225 | the surviving entries are exactly the non-empty ones, each kept as many times as it occurs, in their original relative order |
| UserGrant.RevokePrivileges | common/meta/types/src/user_grant.rs:204-227 | after a revoke no entry is empty; the result is the toggled list with exactly its empty entries removed, every other entry kept as often as it occurs and in order; every non-empty entry the revoke does not match survives |
| UserGrant.RevokeToggles | common/meta/types/src/user_grant.rs:211-226 | revoking held privileges removes exactly those; revoking an unheld one adds it; the matching entry survives iff its toggled set is non-empty |
| AggregatorFinalTransform.ToFunctions | fusequery/query/src/transforms/transform_aggregator_final.rs:27-30 | one function per expression, in order, succeeding iff every expression converts; otherwise the first conversion error |
| AggregatorFinalTransform.TryCreate | fusequery/query/src/transforms/transform_aggregator_final.rs:26-37 | the transform holds one function per expression in order and the given schema; its input starts as the empty processor; it fails with the first conversion error |
| AggregatorFinalTransform.ConnectTo | fusequery/query/src/transforms/transform_aggregator_final.rs:46-53 | connecting replaces the single input, `inputs` then returns exactly that one input, and functions and schema are unchanged |
| AggregatorFinalTransform.MergeValue | fusequery/query/src/transforms/transform_aggregator_final.rs:65-71 | a non-null string that decodes to a struct is merged with the struct's fields; a decode error is the result; every other value leaves the function unchanged |
| AggregatorFinalTransform.MergeBlock | fusequery/query/src/transforms/transform_aggregator_final.rs:64-72 | row `i` of the block is merged into function `i` for every function; it succeeds iff every extraction and merge does |
| AggregatorFinalTransform.Drain | fusequery/query/src/transforms/transform_aggregator_final.rs:61-73 | a successful drain keeps one state per function and has met no stream error |
| AggregatorFinalTransform.Finalize | fusequery/query/src/transforms/transform_aggregator_final.rs:75-78 | one single-row column per function, in function order, holding that function's `merge_result`; it fails iff some `merge_result` fails |
| AggregatorFinalTransform.Execute | fusequery/query/src/transforms/transform_aggregator_final.rs:59-85 | on success exactly one block with the transform's schema and one single-row column per function; an upstream or stream error yields no block; with zero input blocks the columns are the functions' unmerged results |
| AggregatorFinalTransform.DrainIsPerFunctionFold | fusequery/query/src/transforms/transform_aggregator_final.rs:62-73 | merging block by block equals each function folding, in stream order, just the states found for it in its own row; every other value is skipped |
| AggregatorFinalTransform.ExecuteIsPerFunctionFold | fusequery/query/src/transforms/transform_aggregator_final.rs:59-85 | each output column is `merge_result` of the function's fold over its own states, starting from the stored function, which `execute` leaves unchanged |
| AggregatorFinalTransform.DrainFailsOnBadState | fusequery/query/src/transforms/transform_aggregator_final.rs:63-69 | no error is skipped: a value that cannot be extracted, or a string that does not decode, anywhere in the stream fails the whole execution |
| AggregatorFinalTransform.MergeErrorFailsDrain | fusequery/query/src/transforms/transform_aggregator_final.rs:62-73 | a `merge` that fails at any point of a function's fold over its own states fails the whole drain |

Small predicates have no row of their own; the row of the operation built on
them states their meaning:

- `UserGrant.MatchHostPattern` (common/meta/types/src/user_grant.rs:115-121) and `UserGrant.MatchesUserHost` (lines 111-113) are covered by `UserGrant.VerifyEntry`.
- `UserGrant.MatchesEntry` (lines 107-109) is covered by `UserGrant.MergeInto`, `UserGrant.GrantPrivileges` and `UserGrant.ToggleMatching`.
- `UserGrant.AvailablePrivileges` (lines 45-52) is covered by `UserGrant.EntryToStringParts`.
- `UserGrant.EntryToString` (lines 123-144) is covered by `UserGrant.EntryToStringParts` and `UserGrant.EntryTailNamesObject`.
- `AggregatorFinalTransform.Inputs` (fusequery/query/src/transforms/transform_aggregator_final.rs:51-53) is covered by `AggregatorFinalTransform.ConnectTo`.
- `AggregateFunctionFactory.ValidRegistry` states the distinct-keys property of the process-wide maps.

## Left out

- Concurrency and process-wide state are not modelled: the registries' `RwLock`, `lazy_static` and `Arc`. The registries are immutable values.
- `Aggregators::register` and `register_combinator` are not part of this model; a `Registry` value stands for the registries once populated.
- AggregateFunctionFactory.RegisteredNames: a `Registry` value may hold keys equal up to case, which the program's maps cannot; the facts that depend on distinct keys (`FindKeyFindsTheEntry`, `RegisteredNamesAreTheEntries`) require `ValidRegistry`, while the other contracts hold for every registry.
- Asynchronous execution: the upstream's `execute().await` is the parameter `run`, and its stream is a finite sequence of blocks or errors.
- `AggregatorFinalTransform::name` and `as_any`: a constant string and a downcast, with nothing to state.
- `GrantEntry::new`, `UserGrantSet::empty` and `entries`: plain constructors and an accessor; the datatypes' own constructors and fields take their place.
- `UserPrivilegeSet::available_privileges_on_*` and `Display for UserPrivilegeSet` are not part of this model; they are the fields of `PrivilegeCatalog`.
- `ExpressionVisitor::visit` is not part of this model; it is modelled as a left-to-right post-order walk over the sub-expressions each node carries. That sibling order is an assumption: `Chain.VisitIsFold`'s node order and `Chain.CompileFirstError`'s "first failing node" depend on it, whereas the dependency order of `Chain.ActionsFollowSubExpressions` and the counts of `Chain.CompileCount` hold for any order that visits children before their parent.
- `column_name` is not part of this model for nodes other than `Alias` and `Column`; it is the parameter `displayName`.
- AggregateFunctionFactory.Resolve: case-insensitive keys and `to_lowercase` are modelled as ASCII lower-casing, not Unicode case folding.
- AggregateFunctionFactory.Check: uses the same ASCII case folding as `Resolve`.
- AggregatorFinalTransform.Finalize: `to_array(1)` is modelled as a one-row column that cannot fail, because converting a scalar into a one-row array has no error path in the model's value domain.
- Chain.CompileRejectsUnresolved: the error is guaranteed to be `LogicalError` only when no earlier node in visiting order fails first. An unknown column visited earlier reports `FieldNotFound` instead, as the code does.
- Privileges are a `set<P>`, not a bit-flag word. Their width and encoding play no part in any property.
