/** The error a call into the library can raise, as a value. */
module Errors {

  /** A call that either returns a value or throws an `Error` with a message. */
  datatype Result<T> = Returned(value: T) | Thrown(message: string)

  /** The message of the guard on the type representatives `Maybe` and `Either`,
      which are not data constructors and refuse to be called. */
  function CannotInstantiate(typeName: string): string {
    "Cannot instantiate " + typeName
  }

  /** The message names the type: different types give different messages. */
  lemma CannotInstantiateInjective(a: string, b: string)
    ensures CannotInstantiate(a) == CannotInstantiate(b) ==> a == b
  {
    var n := |"Cannot instantiate "|;
    if CannotInstantiate(a) == CannotInstantiate(b) {
      assert CannotInstantiate(a)[n..] == a;
      assert CannotInstantiate(b)[n..] == b;
    }
  }
}
