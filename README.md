# Keystone admin-UI lazy metadata query, in Dafny

This project models two pieces of the Keystone admin-UI template generator
(`packages-next/keystone/src/admin-ui/templates/app.ts`):

- **The lazy metadata query** (`getLazyMetadataQuery`). It starts from a fixed
  base selection (`keystone { adminMeta { lists { key isHidden fields { path
  createView { fieldMode } } } } }`). If the schema's query type has an
  `authenticatedItem` field, the generator checks its shape. The field's type must
  be the union `AuthenticatedItem`. Each member must be a Keystone list (looked up
  by key with `find`, so the first match wins). The list's label field must exist on
  the member type, must be a scalar once at most one non-null wrapper is removed,
  and must take no required argument. Only when every member passes does it append
  one `authenticatedItem` field with an inline fragment `... on Member { id
  <labelField> }` per member. The result is a single `query` operation document.
  Every failure is an error value that carries the names the source's message
  interpolates.
- **The field view collection** in `appTemplate`. It adds every field's `views`
  and, when it is set to a non-empty string, its `ui.views` to an
  insertion-ordered set, across all lists.

Modules:

- `Wrappers` (wrappers.dfy): `Option` and `Result`.
- `Schema` (schema.dfy): the parts of a built GraphQL schema the generator reads.
  These are the query type, object types with their fields keyed by name
  (`getFields()`), field types (scalar, enum, object, union, list, non-null) and
  arguments (type and whether a default exists).
- `Ast` (ast.dfy): selection nodes (fields and inline fragments), operation
  definitions and documents.
- `LazyMetadata` (lazy_metadata.dfy): the specification functions and
  `GetLazyMetadataQuery`. That method is the generator's own step-by-step procedure:
  a loop over the union members that returns at the first failure, then one append
  to the selections. It is proved equal to the specification `LazyMetadataQuery`.
- `LazyMetadataProperties` (lazy_metadata_properties.dfy): the promised behaviour,
  stated against the schema and the lists rather than against the generator's
  checks.
- `AppViews` (app_views.dfy): the nested view-collection loops, proved equal to an
  insertion-ordered de-duplication, and the properties of that de-duplication.

## Model

| member | source | states |
|---|---|---|
| LazyMetadata.GetListByKey | packages-next/keystone/src/admin-ui/templates/app.ts:97 | The lookup is empty exactly when no list has the key; otherwise it is the list at the first index whose key matches (`find`). |
| LazyMetadata.RequiredArgs | packages-next/keystone/src/admin-ui/templates/app.ts:132-134 | The filter keeps exactly the arguments that are non-null and lack a default; it is empty exactly when no argument is required; its first element is the first required argument in declaration order. |
| LazyMetadata.CheckMembers | packages-next/keystone/src/admin-ui/templates/app.ts:109-140 | Member validation succeeds exactly when every member passes its checks; on failure it reports the error of the first failing member in union order. |
| LazyMetadata.GetLazyMetadataQuery | packages-next/keystone/src/admin-ui/templates/app.ts:72-174 | The loop that checks the members and returns at the first failure, followed by the single push, computes exactly `LazyMetadataQuery`. |
| LazyMetadataProperties.GetListByKeyFirst | packages-next/keystone/src/admin-ui/templates/app.ts:97 | When index k holds the first list with a key, the lookup returns that list. |
| LazyMetadataProperties.RequiredArgsFirst | packages-next/keystone/src/admin-ui/templates/app.ts:132-137 | When index k holds the first required argument, the filtered list is non-empty and begins with that argument, the one the error names. |
| LazyMetadataProperties.AbsentAuthenticatedItemKeepsBase | packages-next/keystone/src/admin-ui/templates/app.ts:95-99 | With no query type, or no `authenticatedItem` field on it, the result is the query document over exactly the base selections. |
| LazyMetadataProperties.RejectsOtherAuthenticatedItemType | packages-next/keystone/src/admin-ui/templates/app.ts:100-108 | When `authenticatedItem` is present, the call fails with the type's printed name exactly when its type is not a union named `AuthenticatedItem`. |
| LazyMetadataProperties.UnlistedMemberRejected | packages-next/keystone/src/admin-ui/templates/app.ts:111-116 | A member fails with an error naming it exactly when no list has the member's name as key. |
| LazyMetadataProperties.MissingLabelFieldRejected | packages-next/keystone/src/admin-ui/templates/app.ts:117-122 | With the first matching list, the member fails naming the list key and label field exactly when the label field is not a field of the member type. |
| LazyMetadataProperties.NonScalarLabelFieldRejected | packages-next/keystone/src/admin-ui/templates/app.ts:123-131 | With the label field present, the member fails naming list and field exactly when the field's type is neither a scalar nor a non-null scalar; so list types, non-null or not, are rejected. |
| LazyMetadataProperties.RequiredArgumentRejected | packages-next/keystone/src/admin-ui/templates/app.ts:132-139 | A scalar label field with a required argument fails naming the list, the field and the first required argument in declaration order. |
| LazyMetadataProperties.CheckMemberAccepts | packages-next/keystone/src/admin-ui/templates/app.ts:109-140 | A member passes all checks exactly when the first list with its name exists, that list's label field is a field of the member, its type is scalar under at most one non-null wrapper, and no argument is non-null without a default. |
| LazyMetadataProperties.FailsAtFirstRejectedMember | packages-next/keystone/src/admin-ui/templates/app.ts:109-140 | For the right union, the call fails exactly when some member is not accepted, and the error is the one of the first unaccepted member, all earlier members being accepted. |
| LazyMetadataProperties.SuccessAppendsOneFragmentPerMember | packages-next/keystone/src/admin-ui/templates/app.ts:142-159 | On success with `authenticatedItem` present, the document's selections are the base followed by one `authenticatedItem` field holding one fragment per member in union order, each `... on Member { id labelField }` with the label field of the first matching list, and every member was accepted. |
| LazyMetadataProperties.DocumentShape | packages-next/keystone/src/admin-ui/templates/app.ts:164-173 | Without `authenticatedItem` the call never fails. Every success is exactly one `query` operation whose selections begin with the base selections and have exactly one more entry exactly when `authenticatedItem` is present. |
| LazyMetadataProperties.AdminCustomerExample | packages-next/keystone/src/admin-ui/templates/app.ts:142-159 | For the union `AuthenticatedItem` of `Admin` and `Customer` with label fields `name` and `email`, the field holds the two fragments `... on Admin { id name }` and `... on Customer { id email }`. |
| AppViews.CollectViews | packages-next/keystone/src/admin-ui/templates/app.ts:35-44 | The nested loops produce the insertion-ordered de-duplication of every field's `views` and non-empty `ui.views`. The result has no duplicates, is in order of first insertion, and holds a path exactly when some field of some list contributes it. |
| AppViews.CollectedViewsProperties | packages-next/keystone/src/admin-ui/templates/app.ts:35-44 | The insertion-ordered set of all contributed paths has no duplicates, lists paths in order of first insertion, and holds exactly the paths some field of some list contributes. |
| AppViews.DedupDistinct | packages-next/keystone/src/admin-ui/templates/app.ts:35-44 | The insertion-ordered set never holds an element twice. |
| AppViews.DedupSameElements | packages-next/keystone/src/admin-ui/templates/app.ts:35-44 | The insertion-ordered set holds exactly the elements that were added. |
| AppViews.DedupFirstInsertionOrder | packages-next/keystone/src/admin-ui/templates/app.ts:35-44 | The insertion-ordered set lists its elements in the order in which each was first added. |
| AppViews.ListsViewPathsMembers | packages-next/keystone/src/admin-ui/templates/app.ts:36-42 | A path is among the added paths exactly when some field of some list contributes it as `views` or as a non-empty `ui.views`. |
| AppViews.FieldsViewPathsMembers | packages-next/keystone/src/admin-ui/templates/app.ts:37-42 | Within one list, a path is added exactly when one of its fields contributes it. |

## Left out

- Running `staticAdminMetaQuery` through the GraphQL executor and rethrowing its first error (lines 24-32) is not modelled. The executor is a library outside this model, so the lists' admin metadata (key and label field) is an input.
- Parsing the base fragment (lines 77-93) is not modelled. The base selection set is the constant `BaseSelections`.
- The metadata hash (`hashString(JSON.stringify(...))`, line 33) is not modelled. It is a foreign hash over JSON serialisation.
- The path handling after de-duplication (`Path.isAbsolute`, `Path.relative`, `Path.join`, `serializePathForImport`, lines 45-50) is not modelled. These are platform and library calls; only the de-duplication before them is modelled.
- The text of the generated entry file (lines 52-68) and the exact wording of the error messages are not modelled. Errors are the variants of `SchemaShapeError`, which carry the interpolated names.
- `TypeString` follows GraphQL's notation for a type reference (`Name`, `[T]`, `T!`). The `toString` implementation of the GraphQL library is not part of this model.
- Interface and input object types are not distinct variants. The generator only asks whether a type is a union, a scalar or non-null, and `Enum` and `Object` stand for the other named types.
- AST `kind` tags and `Name`/`NamedType` wrapper nodes are folded into the datatype constructors. A leaf field is a `FieldNode` with an empty selection set, where the source leaves `selectionSet` undefined.
- JavaScript object key order (`Object.values(config.lists)`, `Object.keys(list.fields)`) is taken as the order of the input sequences.
- There is no separate determinism lemma for calling the generator twice. Dafny functions are deterministic, so two calls with equal inputs give equal documents.
- tests/api-tests/access-control/mutations-field-static.test.ts is not part of this model. It is an integration test whose access-control logic lives elsewhere.
