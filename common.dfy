/**
  Declarations shared by every tree of the library: node colours, the traversal
  selector, the two failure kinds, and the Option/Result/Outcome wrappers that
  stand for Java's nullable arguments and thrown exceptions.
*/
module Common {

  /** Colour tag of a node; a freshly constructed node is BLACK. */
  datatype Color = Red | Black

  /** The order in which `text` visits the nodes. */
  datatype Traversal = Inorder | Postorder | Preorder

  /** The two exceptions the library throws. */
  datatype Error =
    | IllegalArgument            // a null key, value or traversal selector
    | NodeNotChildOfItsParent    // a relink found a node that is not a child of its parent

  /** A possibly-null argument: `None` is Java's `null`. */
  datatype Option<+T> = None | Some(value: T)

  /** The value a method returns, or the exception it throws. */
  datatype Result<+R> = Success(value: R) | Failure(error: Error)

  /** Normal completion of a `void` method, or the exception it throws. */
  datatype Outcome = Pass | Fail(error: Error)
}
