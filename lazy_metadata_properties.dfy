/** What the lazy metadata query promises, stated in terms of the schema and
    the lists rather than of the generator's own checks. */
module LazyMetadataProperties {
  import opened Wrappers
  import opened Schema
  import opened Ast
  import opened LazyMetadata

  /** The query type declares an `authenticatedItem` field. */
  predicate HasAuthenticatedItem(schema: GraphQLSchema)
  {
    schema.queryType.Some? && AuthenticatedItemField in schema.queryType.value.fields
  }

  /** The declared type of `Query.authenticatedItem`. */
  function AuthenticatedItemType(schema: GraphQLSchema): SchemaType
    requires HasAuthenticatedItem(schema)
  {
    schema.queryType.value.fields[AuthenticatedItemField].typ
  }

  /** A label field type is acceptable when it is a scalar, possibly under one non-null wrapper. */
  predicate ScalarLabelType(t: SchemaType)
  {
    t.Scalar? || (t.NonNull? && t.ofType.Scalar?)
  }

  /** A label field can be selected without arguments: none is non-null and lacks a default. */
  predicate NoRequiredArgs(f: FieldDef)
  {
    forall i :: 0 <= i < |f.args| ==> f.args[i].hasDefault || !f.args[i].typ.NonNull?
  }

  /** The member refers to a list (the first with its name as key) whose label
      field exists on the member, is scalar and takes no required argument. */
  ghost predicate MemberAccepted(lists: seq<ListMeta>, member: ObjectType)
  {
    exists k :: FirstWithKey(lists, member.name, k) &&
      lists[k].labelField in member.fields &&
      ScalarLabelType(member.fields[lists[k].labelField].typ) &&
      NoRequiredArgs(member.fields[lists[k].labelField])
  }

  /** The fragment `... on <member> { id <labelField> }`, with the label field of
      the first list whose key is the member's name. */
  ghost predicate FragmentFor(lists: seq<ListMeta>, member: ObjectType, frag: SelectionNode)
  {
    exists k :: FirstWithKey(lists, member.name, k) &&
      frag == InlineFragmentNode(member.name, [FieldNode("id", []), FieldNode(lists[k].labelField, [])])
  }

  /** The lookup finds exactly the first list with the key. */
  lemma GetListByKeyFirst(lists: seq<ListMeta>, name: string, k: int)
    requires FirstWithKey(lists, name, k)
    ensures GetListByKey(lists, name) == Some(lists[k])
  {
    var r := GetListByKey(lists, name);
    assert r.Some?;
    var k' :| FirstWithKey(lists, name, k') && lists[k'] == r.value;
    assert k' == k;
  }

  /** The filter's first element is the first required argument. */
  lemma RequiredArgsFirst(args: seq<Argument>, k: int)
    requires FirstRequired(args, k)
    ensures |RequiredArgs(args)| > 0 && RequiredArgs(args)[0] == args[k]
  {
    var r := RequiredArgs(args);
    assert |r| > 0;
    var k' :| FirstRequired(args, k') && r[0] == args[k'];
    assert k' == k;
  }

  /** Without a query type, or without `Query.authenticatedItem`, the document is
      the base selection alone. */
  lemma AbsentAuthenticatedItemKeepsBase(schema: GraphQLSchema, lists: seq<ListMeta>)
    requires !HasAuthenticatedItem(schema)
    ensures LazyMetadataQuery(schema, lists) == Ok(QueryDocument(BaseSelections()))
  {
  }

  /** The call fails with the type's name exactly when `Query.authenticatedItem`
      is not the union named `AuthenticatedItem`. */
  lemma RejectsOtherAuthenticatedItemType(schema: GraphQLSchema, lists: seq<ListMeta>)
    requires HasAuthenticatedItem(schema)
    ensures var t := AuthenticatedItemType(schema);
      LazyMetadataQuery(schema, lists) == Err(NotAuthenticatedItemUnion(TypeString(t)))
      <==> !(t.Union? && t.name == AuthenticatedItemUnion)
  {
  }

  /** A member fails with its own name exactly when no list has it as key. */
  lemma UnlistedMemberRejected(lists: seq<ListMeta>, member: ObjectType)
    ensures CheckMember(lists, member) == Some(MemberNotAList(member.name))
      <==> forall k :: 0 <= k < |lists| ==> lists[k].key != member.name
  {
  }

  /** A member whose list's label field is not a field of the member fails,
      naming the list and the label field; and only then. */
  lemma MissingLabelFieldRejected(lists: seq<ListMeta>, member: ObjectType, k: int)
    requires FirstWithKey(lists, member.name, k)
    ensures CheckMember(lists, member) == Some(MissingLabelField(lists[k].key, lists[k].labelField))
      <==> lists[k].labelField !in member.fields
  {
    GetListByKeyFirst(lists, member.name, k);
  }

  /** A label field whose type, after removing at most one non-null wrapper, is not
      a scalar fails, naming the list and the label field; and only then. So a list
      type, wrapped in non-null or not, is rejected. */
  lemma NonScalarLabelFieldRejected(lists: seq<ListMeta>, member: ObjectType, k: int)
    requires FirstWithKey(lists, member.name, k)
    requires lists[k].labelField in member.fields
    ensures var t := member.fields[lists[k].labelField].typ;
      CheckMember(lists, member) == Some(NonScalarLabelField(lists[k].key, lists[k].labelField))
      <==> !ScalarLabelType(t)
    ensures var t := member.fields[lists[k].labelField].typ;
      t.List? || (t.NonNull? && t.ofType.List?) ==>
      CheckMember(lists, member) == Some(NonScalarLabelField(lists[k].key, lists[k].labelField))
  {
    GetListByKeyFirst(lists, member.name, k);
  }

  /** A scalar label field with a required argument fails, naming the first
      required argument in declaration order. */
  lemma RequiredArgumentRejected(lists: seq<ListMeta>, member: ObjectType, k: int, a: int)
    requires FirstWithKey(lists, member.name, k)
    requires lists[k].labelField in member.fields
    requires ScalarLabelType(member.fields[lists[k].labelField].typ)
    requires FirstRequired(member.fields[lists[k].labelField].args, a)
    ensures CheckMember(lists, member) ==
      Some(RequiredLabelFieldArgument(lists[k].key, lists[k].labelField,
                                      member.fields[lists[k].labelField].args[a].name))
  {
    GetListByKeyFirst(lists, member.name, k);
    RequiredArgsFirst(member.fields[lists[k].labelField].args, a);
  }

  /** A member passes every check exactly when it is accepted. */
  lemma CheckMemberAccepts(lists: seq<ListMeta>, member: ObjectType)
    ensures CheckMember(lists, member).None? <==> MemberAccepted(lists, member)
  {
    var r := GetListByKey(lists, member.name);
    if r.Some? {
      var k :| FirstWithKey(lists, member.name, k) && lists[k] == r.value;
      if MemberAccepted(lists, member) {
        var k' :| FirstWithKey(lists, member.name, k') &&
          lists[k'].labelField in member.fields &&
          ScalarLabelType(member.fields[lists[k'].labelField].typ) &&
          NoRequiredArgs(member.fields[lists[k'].labelField]);
        GetListByKeyFirst(lists, member.name, k');
      }
    }
  }

  /** When `authenticatedItem` is the right union, the call fails exactly when some
      member is not accepted, and then with the error of the first such member. */
  lemma FailsAtFirstRejectedMember(schema: GraphQLSchema, lists: seq<ListMeta>)
    requires HasAuthenticatedItem(schema)
    requires AuthenticatedItemType(schema).Union?
    requires AuthenticatedItemType(schema).name == AuthenticatedItemUnion
    ensures var members := AuthenticatedItemType(schema).types;
      LazyMetadataQuery(schema, lists).Err? <==>
      exists k :: 0 <= k < |members| && !MemberAccepted(lists, members[k])
    ensures var members := AuthenticatedItemType(schema).types;
      forall e :: LazyMetadataQuery(schema, lists) == Err(e) ==>
      exists k :: 0 <= k < |members| && CheckMember(lists, members[k]) == Some(e) &&
        !MemberAccepted(lists, members[k]) &&
        forall j :: 0 <= j < k ==> MemberAccepted(lists, members[j])
  {
    var members := AuthenticatedItemType(schema).types;
    forall k | 0 <= k < |members| {
      CheckMemberAccepts(lists, members[k]);
    }
  }

  /** On success with `authenticatedItem` present, the base selections are followed
      by exactly one `authenticatedItem` field holding one fragment per union member,
      in the union's order, each selecting `id` and that member's label field; and
      every member was accepted. */
  lemma SuccessAppendsOneFragmentPerMember(schema: GraphQLSchema, lists: seq<ListMeta>)
    requires HasAuthenticatedItem(schema)
    requires LazyMetadataQuery(schema, lists).Ok?
    ensures AuthenticatedItemType(schema).Union?
    ensures var members := AuthenticatedItemType(schema).types;
      var doc := LazyMetadataQuery(schema, lists).value;
      exists frags: seq<SelectionNode> ::
        doc == QueryDocument(BaseSelections() + [FieldNode(AuthenticatedItemField, frags)]) &&
        |frags| == |members| &&
        forall i :: 0 <= i < |members| ==>
          MemberAccepted(lists, members[i]) && FragmentFor(lists, members[i], frags[i])
  {
    var members := AuthenticatedItemType(schema).types;
    var frags := MemberFragments(lists, members);
    forall i | 0 <= i < |members|
      ensures MemberAccepted(lists, members[i]) && FragmentFor(lists, members[i], frags[i])
    {
      CheckMemberAccepts(lists, members[i]);
      var r := GetListByKey(lists, members[i].name);
      var k :| FirstWithKey(lists, members[i].name, k) && lists[k] == r.value;
      assert frags[i] == InlineFragmentNode(members[i].name, [FieldNode("id", []), FieldNode(lists[k].labelField, [])]);
    }
  }

  /** Every successful result is one query operation whose selections are the base
      selections plus, exactly when `authenticatedItem` is present, one more field;
      without that field the call cannot fail. */
  lemma DocumentShape(schema: GraphQLSchema, lists: seq<ListMeta>)
    ensures !HasAuthenticatedItem(schema) ==> LazyMetadataQuery(schema, lists).Ok?
    ensures var r := LazyMetadataQuery(schema, lists);
      r.Ok? ==>
        |r.value.definitions| == 1 &&
        r.value.definitions[0].operation == Query &&
        var sels := r.value.definitions[0].selectionSet;
        |sels| == |BaseSelections()| + (if HasAuthenticatedItem(schema) then 1 else 0) &&
        sels[..|BaseSelections()|] == BaseSelections()
  {
  }

  /** The two-member example: `AuthenticatedItem = Admin | Customer` with label
      fields `name` and `email`. */
  lemma AdminCustomerExample()
    ensures
      var str := FieldDef(Scalar("String"), []);
      var admin := ObjectType("Admin", map["id" := FieldDef(NonNull(Scalar("ID")), []), "name" := str]);
      var customer := ObjectType("Customer", map["id" := FieldDef(NonNull(Scalar("ID")), []), "email" := str]);
      var query := ObjectType("Query", map[AuthenticatedItemField := FieldDef(Union("AuthenticatedItem", [admin, customer]), [])]);
      var lists := [ListMeta("Admin", "name"), ListMeta("Customer", "email")];
      LazyMetadataQuery(GraphQLSchema(Some(query)), lists) ==
        Ok(QueryDocument(BaseSelections() + [FieldNode(AuthenticatedItemField, [
          InlineFragmentNode("Admin", [FieldNode("id", []), FieldNode("name", [])]),
          InlineFragmentNode("Customer", [FieldNode("id", []), FieldNode("email", [])])
        ])]))
  {
    var str := FieldDef(Scalar("String"), []);
    var admin := ObjectType("Admin", map["id" := FieldDef(NonNull(Scalar("ID")), []), "name" := str]);
    var customer := ObjectType("Customer", map["id" := FieldDef(NonNull(Scalar("ID")), []), "email" := str]);
    var lists := [ListMeta("Admin", "name"), ListMeta("Customer", "email")];
    GetListByKeyFirst(lists, "Admin", 0);
    GetListByKeyFirst(lists, "Customer", 1);
    assert CheckMember(lists, admin).None?;
    assert CheckMember(lists, customer).None?;
    assert CheckMembers(lists, [admin, customer]).None?;
    var frags := MemberFragments(lists, [admin, customer]);
    assert |frags| == 2;
    assert frags[0] == InlineFragmentNode("Admin", [FieldNode("id", []), FieldNode("name", [])]);
    assert frags[1] == InlineFragmentNode("Customer", [FieldNode("id", []), FieldNode("email", [])]);
    assert frags == [frags[0], frags[1]];
  }
}
