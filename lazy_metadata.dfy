/** The lazy metadata query of the admin-UI entry file: validation of the
    schema's `Query.authenticatedItem` union against the Keystone lists,
    followed by synthesis of the query document. The functions below are the
    specification; `GetLazyMetadataQuery` is the generator's own step-by-step
    procedure, proved to compute it. */
module LazyMetadata {
  import opened Wrappers
  import opened Schema
  import opened Ast

  const AuthenticatedItemField := "authenticatedItem"
  const AuthenticatedItemUnion := "AuthenticatedItem"

  /** The part of a list's admin metadata the query needs. */
  datatype ListMeta = ListMeta(key: string, labelField: string)

  /** The errors the generator throws, each carrying the names its message interpolates. */
  datatype SchemaShapeError =
    | NotAuthenticatedItemUnion(typeString: string)
    | MemberNotAList(memberName: string)
    | MissingLabelField(listKey: string, labelField: string)
    | NonScalarLabelField(listKey: string, labelField: string)
    | RequiredLabelFieldArgument(listKey: string, labelField: string, argName: string)

  /** The fixed base selection: keystone { adminMeta { lists { key isHidden fields { path createView { fieldMode } } } } } */
  function BaseSelections(): seq<SelectionNode>
  {
    [FieldNode("keystone", [
      FieldNode("adminMeta", [
        FieldNode("lists", [
          Leaf("key"),
          Leaf("isHidden"),
          FieldNode("fields", [
            Leaf("path"),
            FieldNode("createView", [Leaf("fieldMode")])
          ])
        ])
      ])
    ])]
  }

  /** A single-operation query document over the given selections. */
  function QueryDocument(selections: seq<SelectionNode>): Document
  {
    Document([OperationDefinition(Query, selections)])
  }

  /** `k` is the first index of a list whose key is `name`. */
  predicate FirstWithKey(lists: seq<ListMeta>, name: string, k: int)
  {
    0 <= k < |lists| && lists[k].key == name &&
    forall j :: 0 <= j < k ==> lists[j].key != name
  }

  /** `lists.find(({ key }) => key === name)`: the first list with that key, if any. */
  function GetListByKey(lists: seq<ListMeta>, name: string): (r: Option<ListMeta>)
    ensures r.None? <==> forall k :: 0 <= k < |lists| ==> lists[k].key != name
    ensures r.Some? ==> exists k :: FirstWithKey(lists, name, k) && lists[k] == r.value
  {
    if |lists| == 0 then None
    else if lists[0].key == name then
      assert FirstWithKey(lists, name, 0);
      Some(lists[0])
    else
      var r := GetListByKey(lists[1..], name);
      if r.None? then r
      else
        var k :| FirstWithKey(lists[1..], name, k) && lists[1..][k] == r.value;
        assert FirstWithKey(lists, name, k + 1);
        r
  }

  /** An argument a caller must supply: non-null typed and without a default. */
  predicate IsRequired(a: Argument)
  {
    !a.hasDefault && a.typ.NonNull?
  }

  /** `k` is the index of the first required argument. */
  predicate FirstRequired(args: seq<Argument>, k: int)
  {
    0 <= k < |args| && IsRequired(args[k]) &&
    forall j :: 0 <= j < k ==> !IsRequired(args[j])
  }

  /** The required arguments of a field, in declaration order (a `filter`). */
  function RequiredArgs(args: seq<Argument>): (r: seq<Argument>)
    ensures forall a :: a in r <==> a in args && IsRequired(a)
    ensures |r| == 0 <==> forall k :: 0 <= k < |args| ==> !IsRequired(args[k])
    ensures |r| > 0 ==> exists k :: FirstRequired(args, k) && r[0] == args[k]
  {
    if |args| == 0 then []
    else
      var rest := RequiredArgs(args[1..]);
      assert forall a :: a in args <==> a == args[0] || a in args[1..];
      if IsRequired(args[0]) then
        assert FirstRequired(args, 0);
        [args[0]] + rest
      else
        if |rest| == 0 then rest
        else
          var k :| FirstRequired(args[1..], k) && rest[0] == args[1..][k];
          assert FirstRequired(args, k + 1);
          rest
  }

  /** The checks the generator makes of one member of the AuthenticatedItem union,
      in their order; None when the member passes all of them. */
  function CheckMember(lists: seq<ListMeta>, member: ObjectType): Option<SchemaShapeError>
  {
    match GetListByKey(lists, member.name)
    case None => Some(MemberNotAList(member.name))
    case Some(list) =>
      if list.labelField !in member.fields then
        Some(MissingLabelField(list.key, list.labelField))
      else
        var labelField := member.fields[list.labelField];
        if !StripNonNull(labelField.typ).Scalar? then
          Some(NonScalarLabelField(list.key, list.labelField))
        else
          var requiredArgs := RequiredArgs(labelField.args);
          if |requiredArgs| > 0 then
            Some(RequiredLabelFieldArgument(list.key, list.labelField, requiredArgs[0].name))
          else
            None
  }

  /** `k` is the index of the first member that fails its checks. */
  predicate FirstFailing(lists: seq<ListMeta>, members: seq<ObjectType>, k: int)
  {
    0 <= k < |members| && CheckMember(lists, members[k]).Some? &&
    forall j :: 0 <= j < k ==> CheckMember(lists, members[j]).None?
  }

  /** The error of the first member that fails, checking members in the union's order. */
  function CheckMembers(lists: seq<ListMeta>, members: seq<ObjectType>): (r: Option<SchemaShapeError>)
    ensures r.None? <==> forall k :: 0 <= k < |members| ==> CheckMember(lists, members[k]).None?
    ensures r.Some? ==> exists k :: FirstFailing(lists, members, k) && CheckMember(lists, members[k]) == r
  {
    if |members| == 0 then None
    else
      var first := CheckMember(lists, members[0]);
      if first.Some? then
        assert FirstFailing(lists, members, 0);
        first
      else
        var r := CheckMembers(lists, members[1..]);
        if r.None? then r
        else
          var k :| FirstFailing(lists, members[1..], k) && CheckMember(lists, members[1..][k]) == r;
          assert FirstFailing(lists, members, k + 1);
          r
  }

  /** The inline fragment `... on <member> { id <labelField> }`. */
  function MemberFragment(lists: seq<ListMeta>, memberName: string): SelectionNode
    requires GetListByKey(lists, memberName).Some?
  {
    InlineFragmentNode(memberName, [Leaf("id"), Leaf(GetListByKey(lists, memberName).value.labelField)])
  }

  /** One fragment per union member, in the union's order (the `map` over `getTypes()`). */
  function MemberFragments(lists: seq<ListMeta>, members: seq<ObjectType>): seq<SelectionNode>
    requires forall k :: 0 <= k < |members| ==> GetListByKey(lists, members[k].name).Some?
  {
    seq(|members|, k requires 0 <= k < |members| => MemberFragment(lists, members[k].name))
  }

  /** What the generator returns for a schema and the lists' admin metadata:
      the query document, or the first schema shape error. */
  function LazyMetadataQuery(schema: GraphQLSchema, lists: seq<ListMeta>): Result<Document, SchemaShapeError>
  {
    if schema.queryType.None? || AuthenticatedItemField !in schema.queryType.value.fields then
      Ok(QueryDocument(BaseSelections()))
    else
      var t := schema.queryType.value.fields[AuthenticatedItemField].typ;
      if !t.Union? || t.name != AuthenticatedItemUnion then
        Err(NotAuthenticatedItemUnion(TypeString(t)))
      else
        match CheckMembers(lists, t.types)
        case Some(e) => Err(e)
        case None =>
          Ok(QueryDocument(BaseSelections() + [FieldNode(AuthenticatedItemField, MemberFragments(lists, t.types))]))
  }

  /** The generator's procedure: starts from the base selections, checks every
      union member in a loop that stops at the first failure, and pushes the
      `authenticatedItem` field only once all members have passed. */
  method GetLazyMetadataQuery(schema: GraphQLSchema, lists: seq<ListMeta>)
    returns (r: Result<Document, SchemaShapeError>)
    ensures r == LazyMetadataQuery(schema, lists)
  {
    var selections := BaseSelections();
    if schema.queryType.Some? {
      var fields := schema.queryType.value.fields;
      if AuthenticatedItemField in fields {
        var authenticatedItemType := fields[AuthenticatedItemField].typ;
        if !authenticatedItemType.Union? || authenticatedItemType.name != AuthenticatedItemUnion {
          return Err(NotAuthenticatedItemUnion(TypeString(authenticatedItemType)));
        }
        var members := authenticatedItemType.types;
        var i := 0;
        while i < |members|
          invariant 0 <= i <= |members|
          invariant forall j :: 0 <= j < i ==> CheckMember(lists, members[j]).None?
        {
          var member := members[i];
          var list := GetListByKey(lists, member.name);
          if list.None? {
            assert FirstFailing(lists, members, i);
            return Err(MemberNotAList(member.name));
          }
          var labelField := list.value.labelField;
          if labelField !in member.fields {
            assert FirstFailing(lists, members, i);
            return Err(MissingLabelField(list.value.key, labelField));
          }
          var labelGraphQLField := member.fields[labelField];
          var labelGraphQLFieldType := labelGraphQLField.typ;
          if labelGraphQLFieldType.NonNull? {
            labelGraphQLFieldType := labelGraphQLFieldType.ofType;
          }
          if !labelGraphQLFieldType.Scalar? {
            assert FirstFailing(lists, members, i);
            return Err(NonScalarLabelField(list.value.key, labelField));
          }
          var requiredArgs := RequiredArgs(labelGraphQLField.args);
          if |requiredArgs| > 0 {
            assert FirstFailing(lists, members, i);
            return Err(RequiredLabelFieldArgument(list.value.key, labelField, requiredArgs[0].name));
          }
          i := i + 1;
        }
        selections := selections + [FieldNode(AuthenticatedItemField, MemberFragments(lists, members))];
      }
    }
    r := Ok(QueryDocument(selections));
  }
}
