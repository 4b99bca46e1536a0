/** The fragment of the GraphQL document AST that the generator produces. */
module Ast {

  /** A selection. A field whose selection set is empty is a leaf field
      (the AST leaves its `selectionSet` undefined). */
  datatype SelectionNode =
    | FieldNode(name: string, selectionSet: seq<SelectionNode>)
    | InlineFragmentNode(typeCondition: string, selectionSet: seq<SelectionNode>)

  datatype OperationType = Query | Mutation | Subscription

  datatype Definition = OperationDefinition(operation: OperationType, selectionSet: seq<SelectionNode>)

  datatype Document = Document(definitions: seq<Definition>)

  function Leaf(name: string): SelectionNode
  {
    FieldNode(name, [])
  }
}
