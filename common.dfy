/** Small shared vocabulary: optional values, the error kinds the view tree raises, node identities. */
module Common {

  datatype Option<+T> = None | Some(value: T) {
    function GetOr(default: T): T {
      match this
      case Some(v) => v
      case None => default
    }
  }

  /** The exceptions the view-tree code raises synchronously at the call site. */
  datatype Error =
    | TypeError            // an argument is not tree-/view-/item-shaped, or a property of undefined is read
    | RecursiveTree        // addChild created a cycle of parent links
    | ParentRemoval        // setParent(null) on a node that already has a parent
    | NotTopLevel          // the plain Error addTopLevelView throws for a view with a parent
    | Unsupported          // teardownDescendantsInContainer, which always raises

  datatype Outcome = Pass | Fail(error: Error)

  datatype Result<+T> = Ok(value: T) | Err(error: Error)

  /** Identity of a tree node / view object; ids outside an arena stand for objects that are not tree nodes. */
  type NodeId = nat
}
